/**
 The lock-free metadata slots of kmpp/base/kmpp_meta.c as a machine of atomic steps: any number
 of threads call the set and get accessors on any slots, and their steps interleave freely.
 */
module MetaProtocol {

  // ---- State

  /** The `state` word: META_VAL_VALID, META_VAL_READY and META_VAL_IS_SHM. */
  datatype Flags = Flags(valid: bool, ready: bool, shm: bool)

  const VAL_INVALID := Flags(false, false, false)
  const VAL_VALID := Flags(true, false, false)
  const READY_MASK := Flags(true, true, false)

  /** A slot; a plain value is kept where a pointer slot keeps its kernel address, and the object
      pointer of a slot shares storage with that address. */
  datatype Slot = Slot(state: Flags, uaddr: int, kaddr: int)

  /** A call of one of the accessors; the pointer setters have already looked up the addresses
      they store. */
  datatype Call =
    | SetVal(val: int)
    | SetPtr(uaddr: int, kaddr: int, shm: bool)
    | GetVal
    | GetObj
    | GetShm

  predicate IsSet(c: Call) {
    c.SetVal? || c.SetPtr?
  }

  /** The next atomic step of a call. */
  datatype Pc = Mask | Cas | Count | StoreUaddr | StoreKaddr | Prop | Ready | ReadUaddr | ReadKaddr | Uncount

  /** What a call does after a step. */
  datatype After = Done | Then(pc: Pc)

  datatype Thread = Idle | Running(pc: Pc, slot: nat, call: Call)

  datatype State = State(slots: seq<Slot>, size: int, threads: seq<Thread>)

  /** Either a thread starts a call or it takes its next step. */
  datatype Label = Start(thread: nat, slot: nat, call: Call) | Go(thread: nat)

  function FirstStep(c: Call): Pc {
    if c.GetObj? || c.GetShm? then Mask else Cas
  }

  /** After the claim, and after the size was counted. */
  function FirstAccess(c: Call): Pc {
    match c
    case SetVal(_) => StoreKaddr
    case SetPtr(_, _, _) => StoreUaddr
    case GetShm => ReadUaddr
    case _ => ReadKaddr
  }

  /** The effect of one atomic step of a call on its slot, and the step that follows. */
  function Effect(pc: Pc, c: Call, slot: Slot): (Slot, After) {
    match pc
    case Mask => (slot.(state := slot.state.(shm := false)), Then(Cas))
    case Cas =>
      if IsSet(c) then
        if slot.state == VAL_INVALID then (slot.(state := VAL_VALID), Then(Count)) else (slot, Then(FirstAccess(c)))
      else if slot.state == READY_MASK then (slot.(state := VAL_INVALID), Then(FirstAccess(c)))
      else (slot, Done)
    case Count => (slot, Then(FirstAccess(c)))
    case StoreUaddr => (slot.(uaddr := if c.SetPtr? then c.uaddr else slot.uaddr), Then(StoreKaddr))
    case StoreKaddr =>
      if c.SetVal? then (slot.(kaddr := c.val), Then(Ready))
      else if c.SetPtr? then (slot.(kaddr := c.kaddr), Then(Prop))
      else (slot, Done)
    case Prop => (slot.(state := slot.state.(shm := c.SetPtr? && c.shm)), Then(Ready))
    case Ready => (slot.(state := slot.state.(ready := true)), Done)
    case ReadUaddr => (slot, Then(ReadKaddr))
    case ReadKaddr => (slot, Then(Uncount))
    case Uncount => (slot, Done)
  }

  /** `meta_inc_size` and `meta_dec_size`. */
  function Sized(pc: Pc, size: int): int {
    if pc == Count then size + 1 else if pc == Uncount then size - 1 else size
  }

  function Moved(t: Thread, next: After): Thread
    requires t.Running?
  {
    if next == Done then Idle else Running(next.pc, t.slot, t.call)
  }

  predicate Enabled(s: State, l: Label) {
    match l
    case Start(t, k, c) => t < |s.threads| && s.threads[t] == Idle && k < |s.slots|
    case Go(t) => t < |s.threads| && s.threads[t] != Idle && s.threads[t].slot < |s.slots|
  }

  function Next(s: State, l: Label): (r: State)
    requires Enabled(s, l)
    ensures |r.slots| == |s.slots| && |r.threads| == |s.threads|
  {
    match l
    case Start(t, k, c) => s.(threads := s.threads[t := Running(FirstStep(c), k, c)])
    case Go(t) =>
      var Running(pc, k, c) := s.threads[t];
      var (slot, next) := Effect(pc, c, s.slots[k]);
      State(s.slots[k := slot], Sized(pc, s.size), s.threads[t := Moved(s.threads[t], next)])
  }

  predicate CanRun(s: State, labels: seq<Label>)
    decreases |labels|
  {
    labels == [] || (Enabled(s, labels[0]) && CanRun(Next(s, labels[0]), labels[1..]))
  }

  function Run(s: State, labels: seq<Label>): (r: State)
    requires CanRun(s, labels)
    ensures |r.slots| == |s.slots| && |r.threads| == |s.threads|
    decreases |labels|
  {
    if labels == [] then s else Run(Next(s, labels[0]), labels[1..])
  }

  /** All threads idle, all slots empty. */
  function Fresh(slots: nat, threads: nat): State {
    State(seq(slots, _ => Slot(VAL_INVALID, 0, 0)), 0, seq(threads, _ => Idle))
  }

  // ---- Counting

  function CountIf<T>(xs: seq<T>, p: T -> bool): (n: nat)
    ensures n <= |xs|
  {
    if xs == [] then 0 else CountIf(xs[..|xs| - 1], p) + if p(xs[|xs| - 1]) then 1 else 0
  }

  lemma {:induction false} CountUpdate<T>(xs: seq<T>, i: nat, x: T, p: T -> bool)
    requires i < |xs|
    ensures CountIf(xs[i := x], p) + (if p(xs[i]) then 1 else 0) == CountIf(xs, p) + (if p(x) then 1 else 0)
  {
    var n := |xs| - 1;
    if i < n {
      CountUpdate(xs[..n], i, x, p);
      assert xs[i := x][..n] == xs[..n][i := x];
    } else {
      assert xs[i := x][..n] == xs[..n];
    }
  }

  lemma {:induction false} CountNone<T>(xs: seq<T>, p: T -> bool)
    requires forall i | 0 <= i < |xs| :: !p(xs[i])
    ensures CountIf(xs, p) == 0
  {
    if xs != [] {
      CountNone(xs[..|xs| - 1], p);
    }
  }

  predicate IsValid(x: Slot) {
    x.state.valid
  }

  predicate Claiming(t: Thread) {
    t.Running? && t.pc == Count
  }

  function ValidSlots(s: State): nat {
    CountIf(s.slots, IsValid)
  }

  /** Setters that have claimed a slot but not counted it yet. */
  function Claimed(s: State): nat {
    CountIf(s.threads, Claiming)
  }

  /** Getters that have consumed a slot but not uncounted it yet. */
  function Consumed(s: State): nat {
    CountIf(s.threads, Consuming)
  }

  predicate Consuming(t: Thread) {
    t.Running? && (t.pc == ReadUaddr || t.pc == ReadKaddr || t.pc == Uncount)
  }

  /** Calls take only the steps they have. */
  predicate WellFormed(s: State) {
    forall t | 0 <= t < |s.threads| && s.threads[t].Running? ::
      && s.threads[t].slot < |s.slots|
      && (if IsSet(s.threads[t].call) then s.threads[t].pc in {Cas, Count, StoreUaddr, StoreKaddr, Prop, Ready}
          else s.threads[t].pc in {Mask, Cas, ReadUaddr, ReadKaddr, Uncount})
  }

  /** `size` plus claimed but uncounted sets minus consumed but uncounted gets is the number of
      slots with the VALID bit. */
  predicate Balanced(s: State) {
    s.size + Claimed(s) - Consumed(s) == ValidSlots(s)
  }

  lemma NextWellFormed(s: State, l: Label)
    requires WellFormed(s) && Enabled(s, l)
    ensures WellFormed(Next(s, l))
  {
  }

  function One(b: bool): int {
    if b then 1 else 0
  }

  /** One step changes the size and the three counts in step. */
  lemma EffectBalanced(x: Slot, t: Thread)
    requires t.Running?
    requires if IsSet(t.call) then t.pc in {Cas, Count, StoreUaddr, StoreKaddr, Prop, Ready}
             else t.pc in {Mask, Cas, ReadUaddr, ReadKaddr, Uncount}
    ensures var (y, next) := Effect(t.pc, t.call, x);
            var (t', size) := (Moved(t, next), Sized(t.pc, 0));
            size + (One(Claiming(t')) - One(Claiming(t))) - (One(Consuming(t')) - One(Consuming(t)))
            == One(IsValid(y)) - One(IsValid(x))
  {
  }

  lemma GoIs(s: State, t: nat)
    requires Enabled(s, Go(t))
    ensures var (k, (y, next)) := (s.threads[t].slot, Effect(s.threads[t].pc, s.threads[t].call, s.slots[s.threads[t].slot]));
            Next(s, Go(t)) == State(s.slots[k := y], s.size + Sized(s.threads[t].pc, 0), s.threads[t := Moved(s.threads[t], next)])
  {
    hide Effect;
  }

  lemma NextBalanced(s: State, l: Label)
    requires WellFormed(s) && Enabled(s, l) && Balanced(s)
    ensures Balanced(Next(s, l))
  {
    hide CountIf, Effect, Sized, Moved, Claiming, Consuming, IsValid;
    var t := l.thread;
    if l.Go? {
      var k := s.threads[t].slot;
      var (y, next) := Effect(s.threads[t].pc, s.threads[t].call, s.slots[k]);
      GoIs(s, t);
      EffectBalanced(s.slots[k], s.threads[t]);
      CountUpdate(s.threads, t, Moved(s.threads[t], next), Claiming);
      CountUpdate(s.threads, t, Moved(s.threads[t], next), Consuming);
      CountUpdate(s.slots, k, y, IsValid);
    } else {
      var r := Running(FirstStep(l.call), l.slot, l.call);
      StartsNeutral(l.call, l.slot);
      CountUpdate(s.threads, t, r, Claiming);
      CountUpdate(s.threads, t, r, Consuming);
    }
  }

  lemma StartsNeutral(c: Call, k: nat)
    ensures var r := Running(FirstStep(c), k, c);
            !Claiming(r) && !Consuming(r) && !Claiming(Idle) && !Consuming(Idle)
  {
  }

  lemma {:induction false} RunBalanced(s: State, labels: seq<Label>)
    requires WellFormed(s) && Balanced(s) && CanRun(s, labels)
    ensures WellFormed(Run(s, labels)) && Balanced(Run(s, labels))
    decreases |labels|
  {
    hide Balanced, Next, WellFormed;
    if labels != [] {
      NextWellFormed(s, labels[0]);
      NextBalanced(s, labels[0]);
      RunBalanced(Next(s, labels[0]), labels[1..]);
    }
  }

  lemma FreshBalanced(slots: nat, threads: nat)
    ensures WellFormed(Fresh(slots, threads)) && Balanced(Fresh(slots, threads))
  {
    var s := Fresh(slots, threads);
    CountNone(s.threads, Claiming);
    CountNone(s.threads, Consuming);
    CountNone(s.slots, IsValid);
  }

  /** In every run from empty slots, of any number of threads and in any interleaving, the size
      is balanced; whenever all calls have returned it is the number of valid slots. */
  lemma EveryRunBalanced(slots: nat, threads: nat, labels: seq<Label>)
    requires CanRun(Fresh(slots, threads), labels)
    ensures var s := Run(Fresh(slots, threads), labels);
            && s.size + Claimed(s) - Consumed(s) == ValidSlots(s)
            && ((forall t | 0 <= t < |s.threads| :: s.threads[t] == Idle) ==> s.size == ValidSlots(s))
  {
    FreshBalanced(slots, threads);
    RunBalanced(Fresh(slots, threads), labels);
    var s := Run(Fresh(slots, threads), labels);
    hide Run, CanRun;
    if forall t | 0 <= t < |s.threads| :: s.threads[t] == Idle {
      CountNone(s.threads, Claiming);
      CountNone(s.threads, Consuming);
    }
  }

  // ---- The stuck slot

  /** READY without VALID. */
  predicate Stuck(x: Slot) {
    x.state.ready && !x.state.valid
  }

  /** A slot gets stuck exactly when a setter marks it ready after a getter has consumed it. */
  lemma StuckArises(s: State, l: Label, k: nat)
    requires Enabled(s, l) && k < |s.slots| && !Stuck(s.slots[k])
    ensures Stuck(Next(s, l).slots[k]) <==>
              l.Go? && s.threads[l.thread].slot == k && s.threads[l.thread].pc == Ready && !s.slots[k].state.valid
  {
  }

  /** Once stuck, a slot stays stuck in every continuation. */
  lemma {:induction false} StuckForever(s: State, labels: seq<Label>, k: nat)
    requires CanRun(s, labels) && k < |s.slots| && Stuck(s.slots[k])
    ensures Stuck(Run(s, labels).slots[k])
    decreases |labels|
  {
    hide Next;
    if labels != [] {
      StuckStays(s, labels[0], k);
      StuckForever(Next(s, labels[0]), labels[1..], k);
    }
  }

  lemma StuckStays(s: State, l: Label, k: nat)
    requires Enabled(s, l) && k < |s.slots| && Stuck(s.slots[k])
    ensures Stuck(Next(s, l).slots[k])
  {
  }

  /** On a stuck slot every get fails and no set claims it. */
  lemma StuckRefuses(s: State, t: nat)
    requires Enabled(s, Go(t)) && s.threads[t].pc == Cas && Stuck(s.slots[s.threads[t].slot])
    ensures var after := Next(s, Go(t));
            && after.slots == s.slots
            && after.threads[t] == if IsSet(s.threads[t].call) then s.threads[t].(pc := FirstAccess(s.threads[t].call)) else Idle
  {
    var k := s.threads[t].slot;
    assert s.slots[k := s.slots[k]] == s.slots;
  }

  // ---- A run that gets a slot stuck

  /** One slot and two threads. */
  function Two(x: Slot, size: int, a: Thread, b: Thread): State {
    State([x], size, [a, b])
  }

  /** The first thread takes its step, then the rest of the run follows. */
  lemma First(x: Slot, size: int, a: Thread, b: Thread, rest: seq<Label>)
    requires a.Running? && a.slot == 0
    ensures var (y, next) := Effect(a.pc, a.call, x);
            var s := Two(y, Sized(a.pc, size), Moved(a, next), b);
            CanRun(s, rest) ==>
              CanRun(Two(x, size, a, b), [Go(0)] + rest) && Run(Two(x, size, a, b), [Go(0)] + rest) == Run(s, rest)
  {
    hide Effect;
    var (y, next) := Effect(a.pc, a.call, x);
    assert [x][0 := y] == [y] && [a, b][0 := Moved(a, next)] == [Moved(a, next), b];
    assert Next(Two(x, size, a, b), Go(0)) == Two(y, Sized(a.pc, size), Moved(a, next), b);
    assert ([Go(0)] + rest)[1..] == rest;
  }

  lemma Second(x: Slot, size: int, a: Thread, b: Thread, rest: seq<Label>)
    requires b.Running? && b.slot == 0
    ensures var (y, next) := Effect(b.pc, b.call, x);
            var s := Two(y, Sized(b.pc, size), a, Moved(b, next));
            CanRun(s, rest) ==>
              CanRun(Two(x, size, a, b), [Go(1)] + rest) && Run(Two(x, size, a, b), [Go(1)] + rest) == Run(s, rest)
  {
    hide Effect;
    var (y, next) := Effect(b.pc, b.call, x);
    assert [x][0 := y] == [y] && [a, b][1 := Moved(b, next)] == [a, Moved(b, next)];
    assert Next(Two(x, size, a, b), Go(1)) == Two(y, Sized(b.pc, size), a, Moved(b, next));
    assert ([Go(1)] + rest)[1..] == rest;
  }

  lemma Starts(x: Slot, size: int, a: Thread, b: Thread, c: Call, rest: seq<Label>)
    ensures var s := Two(x, size, Running(FirstStep(c), 0, c), b);
            a == Idle && CanRun(s, rest) ==>
              && CanRun(Two(x, size, a, b), [Start(0, 0, c)] + rest)
              && Run(Two(x, size, a, b), [Start(0, 0, c)] + rest) == Run(s, rest)
    ensures var s := Two(x, size, a, Running(FirstStep(c), 0, c));
            b == Idle && CanRun(s, rest) ==>
              && CanRun(Two(x, size, a, b), [Start(1, 0, c)] + rest)
              && Run(Two(x, size, a, b), [Start(1, 0, c)] + rest) == Run(s, rest)
  {
    hide FirstStep;
    var r := Running(FirstStep(c), 0, c);
    assert [a, b][0 := r] == [r, b] && [a, b][1 := r] == [a, r];
    assert ([Start(0, 0, c)] + rest)[1..] == rest && ([Start(1, 0, c)] + rest)[1..] == rest;
  }

  const EMPTY := Slot(VAL_INVALID, 0, 0)
  const STUCK := Slot(Flags(false, true, false), 0, 2)

  /** Inside the second set: it has found the slot claimed. */
  function Overwriting(): Thread {
    Running(StoreKaddr, 0, SetVal(2))
  }

  /** Thread 0 sets the slot to 1, then calls set again and finds the slot claimed. */
  function FirstHalf(rest: seq<Label>): seq<Label> {
    [Start(0, 0, SetVal(1))] + ([Go(0)] + ([Go(0)] + ([Go(0)] + ([Go(0)] + ([Start(0, 0, SetVal(2))] + ([Go(0)] + rest))))))
  }

  /** Thread 1 gets the value 1, then thread 0 finishes. */
  function SecondHalf(): seq<Label> {
    [Start(1, 0, GetVal)] + ([Go(1)] + ([Go(1)] + ([Go(1)] + ([Go(0)] + ([Go(0)] + [])))))
  }

  lemma FirstHalfRuns(rest: seq<Label>)
    requires CanRun(Two(Slot(READY_MASK, 0, 1), 1, Overwriting(), Idle), rest)
    ensures CanRun(Two(EMPTY, 0, Idle, Idle), FirstHalf(rest))
    ensures Run(Two(EMPTY, 0, Idle, Idle), FirstHalf(rest)) == Run(Two(Slot(READY_MASK, 0, 1), 1, Overwriting(), Idle), rest)
  {
    hide CanRun, Run, Two;
    var (r7, kept) := ([Go(0)] + rest, Slot(READY_MASK, 0, 1));
    First(kept, 1, Running(Cas, 0, SetVal(2)), Idle, rest);
    Starts(kept, 1, Idle, Idle, SetVal(2), r7);
    var r6 := [Start(0, 0, SetVal(2))] + r7;
    First(Slot(VAL_VALID, 0, 1), 1, Running(Ready, 0, SetVal(1)), Idle, r6);
    First(Slot(VAL_VALID, 0, 0), 1, Running(StoreKaddr, 0, SetVal(1)), Idle, [Go(0)] + r6);
    First(Slot(VAL_VALID, 0, 0), 0, Running(Count, 0, SetVal(1)), Idle, [Go(0)] + ([Go(0)] + r6));
    First(EMPTY, 0, Running(Cas, 0, SetVal(1)), Idle, [Go(0)] + ([Go(0)] + ([Go(0)] + r6)));
    Starts(EMPTY, 0, Idle, Idle, SetVal(1), [Go(0)] + ([Go(0)] + ([Go(0)] + ([Go(0)] + r6))));
  }

  lemma SecondHalfRuns()
    ensures CanRun(Two(Slot(READY_MASK, 0, 1), 1, Overwriting(), Idle), SecondHalf())
    ensures Run(Two(Slot(READY_MASK, 0, 1), 1, Overwriting(), Idle), SecondHalf()) == Two(STUCK, 0, Idle, Idle)
  {
    NoSteps(Two(STUCK, 0, Idle, Idle));
    hide CanRun, Run, Two;
    var (a, gone) := (Overwriting(), Slot(VAL_INVALID, 0, 1));
    First(Slot(VAL_INVALID, 0, 2), 0, Running(Ready, 0, SetVal(2)), Idle, []);
    First(gone, 0, a, Idle, [Go(0)] + []);
    var r := [Go(0)] + ([Go(0)] + []);
    Second(gone, 1, a, Running(Uncount, 0, GetVal), r);
    Second(gone, 1, a, Running(ReadKaddr, 0, GetVal), [Go(1)] + r);
    Second(Slot(READY_MASK, 0, 1), 1, a, Running(Cas, 0, GetVal), [Go(1)] + ([Go(1)] + r));
    Starts(Slot(READY_MASK, 0, 1), 1, a, Idle, GetVal, [Go(1)] + ([Go(1)] + ([Go(1)] + r)));
  }

  lemma NoSteps(s: State)
    ensures CanRun(s, []) && Run(s, []) == s
  {
  }

  /** The overwrite that leaves a slot stuck although both threads have returned: a get consumes
      the slot between the claim attempt of a second set and its last step. */
  lemma OverwriteSticks()
    ensures var (start, labels) := (Fresh(1, 2), FirstHalf(SecondHalf()));
            && CanRun(start, labels)
            && Run(start, labels) == State([STUCK], 0, [Idle, Idle]) && Stuck(STUCK)
  {
    assert Fresh(1, 2) == Two(EMPTY, 0, Idle, Idle) && Stuck(STUCK);
    assert State([STUCK], 0, [Idle, Idle]) == Two(STUCK, 0, Idle, Idle);
    hide *;
    SecondHalfRuns();
    FirstHalfRuns(SecondHalf());
  }

  // ---- When a slot gets stuck

  /** A setter marks slot k ready that is no longer valid. */
  predicate MarksInvalid(s: State, l: Label, k: nat)
    requires Enabled(s, l) && k < |s.slots|
  {
    l.Go? && s.threads[l.thread].pc == Ready && s.threads[l.thread].slot == k && !s.slots[k].state.valid
  }

  /** Some step of the run does. */
  predicate MarksInvalidInRun(s: State, labels: seq<Label>, k: nat)
    requires CanRun(s, labels) && k < |s.slots|
    decreases |labels|
  {
    labels != [] && (MarksInvalid(s, labels[0], k) || MarksInvalidInRun(Next(s, labels[0]), labels[1..], k))
  }

  /** Over any run, a slot gets stuck exactly when a setter marks it ready while it is not valid. */
  lemma {:induction false} StuckIff(s: State, labels: seq<Label>, k: nat)
    requires CanRun(s, labels) && k < |s.slots| && !Stuck(s.slots[k])
    ensures Stuck(Run(s, labels).slots[k]) <==> MarksInvalidInRun(s, labels, k)
    decreases |labels|
  {
    hide Next, Stuck, Enabled, Effect;
    if labels != [] {
      StuckArises(s, labels[0], k);
      if Stuck(Next(s, labels[0]).slots[k]) {
        StuckForever(Next(s, labels[0]), labels[1..], k);
      } else {
        StuckIff(Next(s, labels[0]), labels[1..], k);
      }
    }
  }

  /** A setter between its claim and its last step. */
  predicate Writing(t: Thread, k: nat) {
    t.Running? && t.slot == k && IsSet(t.call) && t.pc != Cas
  }

  /** A getter consumes a slot that a setter is writing. */
  predicate Overtakes(s: State, l: Label)
    requires Enabled(s, l)
  {
    && l.Go? && s.threads[l.thread].pc == Cas && !IsSet(s.threads[l.thread].call)
    && s.slots[s.threads[l.thread].slot].state == READY_MASK
    && exists u :: 0 <= u < |s.threads| && Writing(s.threads[u], s.threads[l.thread].slot)
  }

  predicate NeverOvertakes(s: State, labels: seq<Label>)
    requires CanRun(s, labels)
    decreases |labels|
  {
    labels == [] || (!Overtakes(s, labels[0]) && NeverOvertakes(Next(s, labels[0]), labels[1..]))
  }

  /** A slot that is not empty is valid, and so is a slot under a setter's hands. */
  predicate Guarded(s: State) {
    && (forall k | 0 <= k < |s.slots| && s.slots[k].state != VAL_INVALID :: s.slots[k].state.valid)
    && (forall t | 0 <= t < |s.threads| ::
          forall k: nat | k < |s.slots| && Writing(s.threads[t], k) :: s.slots[k].state.valid)
  }

  lemma NextGuarded(s: State, l: Label)
    requires WellFormed(s) && Guarded(s) && Enabled(s, l) && !Overtakes(s, l)
    ensures Guarded(Next(s, l))
  {
  }

  lemma {:induction false} RunGuarded(s: State, labels: seq<Label>)
    requires WellFormed(s) && Guarded(s) && CanRun(s, labels) && NeverOvertakes(s, labels)
    ensures Guarded(Run(s, labels))
    decreases |labels|
  {
    hide Next, Guarded, WellFormed, Overtakes;
    if labels != [] {
      NextWellFormed(s, labels[0]);
      NextGuarded(s, labels[0]);
      RunGuarded(Next(s, labels[0]), labels[1..]);
    }
  }

  /** As long as no get consumes a slot in the middle of a set on it, no slot is ever stuck, in
      any interleaving. */
  lemma NeverStuck(slots: nat, threads: nat, labels: seq<Label>, k: nat)
    requires CanRun(Fresh(slots, threads), labels) && k < slots
    requires NeverOvertakes(Fresh(slots, threads), labels)
    ensures !Stuck(Run(Fresh(slots, threads), labels).slots[k])
  {
    FreshBalanced(slots, threads);
    RunGuarded(Fresh(slots, threads), labels);
    hide CanRun, Run, NeverOvertakes;
    var x := Run(Fresh(slots, threads), labels).slots[k];
    assert x.state != VAL_INVALID ==> x.state.valid;
  }

  // ---- One call at a time

  /** The slot after a call ran alone from step pc on; no call has more than eight steps. */
  function Solo(c: Call, pc: Pc, x: Slot, steps: nat): Slot
    decreases steps
  {
    if steps == 0 then x
    else
      var (y, next) := Effect(pc, c, x);
      if next == Done then y else Solo(c, next.pc, y, steps - 1)
  }

  /** Whether the call returns within so many steps when it runs alone. */
  predicate Returns(c: Call, pc: Pc, x: Slot, steps: nat)
    decreases steps
  {
    steps > 0 && (var (y, next) := Effect(pc, c, x); next == Done || Returns(c, next.pc, y, steps - 1))
  }

  function Repeat(l: Label, n: nat): seq<Label> {
    if n == 0 then [] else [l] + Repeat(l, n - 1)
  }

  /** A call that runs alone is a run of the machine. */
  lemma {:induction false} SoloRuns(s: State, t: nat, steps: nat) returns (n: nat)
    requires t < |s.threads| && s.threads[t].Running? && s.threads[t].slot < |s.slots|
    requires var Running(pc, k, c) := s.threads[t]; Returns(c, pc, s.slots[k], steps)
    ensures CanRun(s, Repeat(Go(t), n))
    ensures var (Running(pc, k, c), s') := (s.threads[t], Run(s, Repeat(Go(t), n)));
            s'.threads == s.threads[t := Idle] && s'.slots == s.slots[k := Solo(c, pc, s.slots[k], steps)]
    decreases steps
  {
    hide Effect;
    var Running(pc, k, c) := s.threads[t];
    var (y, next) := Effect(pc, c, s.slots[k]);
    var s1 := Next(s, Go(t));
    GoIs(s, t);
    if next == Done {
      n := 1;
      assert Repeat(Go(t), 1) == [Go(t)];
      assert [Go(t)][1..] == [];
    } else {
      var m := SoloRuns(s1, t, steps - 1);
      n := m + 1;
      assert Repeat(Go(t), n)[1..] == Repeat(Go(t), m);
      assert s1.threads[t := Idle] == s.threads[t := Idle];
      assert s1.slots[k := Solo(c, next.pc, y, steps - 1)] == s.slots[k := Solo(c, next.pc, y, steps - 1)];
    }
  }

  /** What a setter that runs alone leaves in a slot. */
  function Filled(x: Slot, c: Call): Slot {
    if c.SetVal? then Slot(Flags(true, true, x.state.shm), x.uaddr, c.val)
    else if c.SetPtr? then Slot(Flags(true, true, c.shm), c.uaddr, c.kaddr)
    else x
  }

  /** Empty, or valid and ready. */
  predicate Settled(x: Slot) {
    x.state == VAL_INVALID || (x.state.valid && x.state.ready)
  }

  lemma SoloStoreKaddr(x: Slot, c: Call, steps: nat)
    requires x.state.valid && IsSet(c) && steps >= 3 && (c.SetPtr? ==> x.uaddr == c.uaddr)
    ensures Returns(c, StoreKaddr, x, steps) && Solo(c, StoreKaddr, x, steps) == Filled(x, c)
  {
    if c.SetPtr? {
      var y := x.(kaddr := c.kaddr);
      assert Solo(c, Prop, y, steps - 1) == Solo(c, Ready, y.(state := y.state.(shm := c.shm)), steps - 2);
    } else {
      assert Solo(c, StoreKaddr, x, steps) == Solo(c, Ready, x.(kaddr := c.val), steps - 1);
    }
  }

  lemma SoloStores(x: Slot, c: Call, steps: nat)
    requires x.state.valid && IsSet(c) && steps >= 4
    ensures Returns(c, FirstAccess(c), x, steps) && Solo(c, FirstAccess(c), x, steps) == Filled(x, c)
  {
    SoloStoreKaddr(if c.SetPtr? then x.(uaddr := c.uaddr) else x, c, if c.SetPtr? then steps - 1 else steps);
  }

  /** A set that runs alone leaves a settled slot valid and ready, with its value. */
  lemma SoloSet(x: Slot, c: Call)
    requires Settled(x) && IsSet(c)
    ensures Returns(c, FirstStep(c), x, 8) && Solo(c, FirstStep(c), x, 8) == Filled(x, c)
  {
    var y := x.(state := if x.state == VAL_INVALID then VAL_VALID else x.state);
    SoloStores(y, c, 6);
    SoloStores(y, c, 7);
  }

  lemma SoloReadKaddr(x: Slot, c: Call, steps: nat)
    requires steps >= 2
    ensures Returns(c, ReadKaddr, x, steps) && Solo(c, ReadKaddr, x, steps) == x
  {
    assert Solo(c, Uncount, x, steps - 1) == x;
  }

  lemma SoloReads(x: Slot, c: Call, steps: nat)
    requires !IsSet(c) && steps >= 3
    ensures Returns(c, FirstAccess(c), x, steps) && Solo(c, FirstAccess(c), x, steps) == x
  {
    SoloReadKaddr(x, c, steps);
    SoloReadKaddr(x, c, steps - 1);
  }

  lemma SoloTakes(x: Slot, c: Call, steps: nat)
    requires Settled(x) && !x.state.shm && !IsSet(c) && steps >= 4
    ensures Returns(c, Cas, x, steps) && Solo(c, Cas, x, steps) == x.(state := VAL_INVALID)
  {
    if x.state.valid {
      SoloReads(x.(state := VAL_INVALID), c, steps - 1);
    }
  }

  /** A get that runs alone empties a settled slot; getters of plain values expect no mark. */
  lemma SoloGet(x: Slot, c: Call)
    requires Settled(x) && !IsSet(c) && (c.GetVal? ==> !x.state.shm)
    ensures Returns(c, FirstStep(c), x, 8) && Solo(c, FirstStep(c), x, 8) == x.(state := VAL_INVALID)
  {
    var y := x.(state := x.state.(shm := false));
    if c.GetVal? {
      assert y == x;
      SoloTakes(x, c, 8);
    } else {
      assert FirstStep(c) == Mask && Effect(Mask, c, x) == (y, Then(Cas));
      SoloTakes(y, c, 7);
      assert Solo(c, Mask, x, 8) == Solo(c, Cas, y, 7);
      assert y.(state := VAL_INVALID) == x.(state := VAL_INVALID);
    }
  }
}
