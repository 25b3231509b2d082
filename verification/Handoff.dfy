/** The hand-off of proxies from the PEPsal poller to the pool of workers and back, as atomic
    steps of the threads on two locked queues with condition variables. */
module Handoff {
  import opened Basics

  datatype Queue = Queue(items: seq<nat>, numItems: int) {
    ghost predicate Counted() {
      numItems == |items|
    }

    function EnqueueList(list: seq<nat>, n: int): Queue {
      Queue(items + list, numItems + n)
    }

    function Dequeue(): Queue
      requires items != []
    {
      Queue(items[1..], numItems - 1)
    }

    function DequeueList(): Queue {
      Queue([], 0)
    }
  }

  /** What the poller does next. */
  datatype PollerPc =
    | Idle | LocksActive | Enqueues | LocksReady | Signals | UnlocksActive | Checks | Waits | Relocks | UnlocksReady
      | Clears

  /** What a worker does next. */
  datatype WorkerPc =
    | Enters | Sleeps | Asleep | Roused | Chooses | Releases | Relays | Returns | Files | Unlocks | Reports

  datatype Worker = Worker(pc: WorkerPc, hand: seq<nat>, local: seq<nat>, readyItems: int, waited: bool)

  datatype Thread = Poller | Pool(i: nat)

  /** round, relayed and busy record the proxies of the round, those relayed so far, and the
      worker that was woken for it. */
  datatype State = State(
    active: Queue, ready: Queue, activeOwner: Option<Thread>, readyOwner: Option<Thread>,
    pc: PollerPc, local: seq<nat>, numWorks: int, enqueued: set<nat>, workers: seq<Worker>,
    round: seq<nat>, relayed: seq<nat>, busy: Option<nat>)

  /** owners: the proxies of the endpoints that poll reports; wake: the waiter that a signal wakes. */
  datatype Action = PollerStep(owners: seq<nat>, wake: nat) | WorkerStep(i: nat)

  /** The proxies to be handed over: each one once, though both its endpoints may be ready. */
  function Gather(owners: seq<nat>, enqueued: set<nat>): seq<nat> {
    if owners == [] then []
    else if owners[0] in enqueued then Gather(owners[1..], enqueued)
    else [owners[0]] + Gather(owners[1..], enqueued + {owners[0]})
  }

  lemma {:induction false} GatherOnce(owners: seq<nat>, enqueued: set<nat>)
    ensures Distinct(Gather(owners, enqueued))
    ensures forall p :: p in Gather(owners, enqueued) <==> p in owners && p !in enqueued
  {
    if owners != [] {
      assert owners == [owners[0]] + owners[1..];
      if owners[0] in enqueued {
        GatherOnce(owners[1..], enqueued);
      } else {
        GatherOnce(owners[1..], enqueued + {owners[0]});
        var rest := Gather(owners[1..], enqueued + {owners[0]});
        assert forall j | 0 <= j < |rest| :: rest[j] in rest;
      }
    }
  }

  function ToSet(s: seq<nat>): set<nat> {
    set p | p in s
  }

  ghost predicate Distinct(s: seq<nat>) {
    forall i, j | 0 <= i < j < |s| :: s[i] != s[j]
  }

  function Put(s: State, i: nat, w: Worker): State
    requires i < |s.workers|
  {
    s.(workers := s.workers[i := w])
  }

  // ---- The steps ----

  ghost predicate SomeAsleep(s: State) {
    exists i :: 0 <= i < |s.workers| && s.workers[i].pc == Asleep
  }

  ghost predicate Enabled(s: State, a: Action) {
    match a
    case PollerStep(owners, wake) => (
      match s.pc
      case Idle => Gather(owners, s.enqueued) != []
      case LocksActive => s.activeOwner == None
      case LocksReady => s.readyOwner == None
      case Relocks => s.readyOwner == None
      case Signals => SomeAsleep(s) ==> wake < |s.workers| && s.workers[wake].pc == Asleep
      case Waits => false
      case _ => true)
    case WorkerStep(i) =>
      i < |s.workers| && match s.workers[i].pc
        case Enters => s.activeOwner == None
        case Roused => s.activeOwner == None
        case Returns => s.activeOwner == None
        case Chooses => s.active.numItems > 0 || s.readyOwner == None
        case Asleep => false
        case _ => true
  }

  ghost function PollerApply(s: State, owners: seq<nat>, wake: nat): State
    requires Enabled(s, PollerStep(owners, wake))
  {
    match s.pc
    case Idle =>
      var works := Gather(owners, s.enqueued);
      s.(pc := LocksActive, local := works, numWorks := |works|, enqueued := s.enqueued + ToSet(works),
         round := works, relayed := [])
    case LocksActive => s.(pc := Enqueues, activeOwner := Some(Poller))
    case Enqueues => s.(pc := LocksReady, active := s.active.EnqueueList(s.local, s.numWorks), local := [])
    case LocksReady => s.(pc := Signals, readyOwner := Some(Poller))
    case Signals =>
      var s' := s.(pc := UnlocksActive);
      if SomeAsleep(s) then Put(s', wake, s.workers[wake].(pc := Roused)).(busy := Some(wake)) else s'
    case UnlocksActive => s.(pc := Checks, activeOwner := None)
    case Checks =>
      if s.ready.numItems != s.numWorks then s.(pc := Waits, readyOwner := None)
      else s.(pc := UnlocksReady, local := s.ready.items, ready := s.ready.DequeueList())
    case Waits => s
    case Relocks => s.(pc := Checks, readyOwner := Some(Poller))
    case UnlocksReady => s.(pc := Clears, readyOwner := None)
    case Clears => s.(pc := Idle, enqueued := s.enqueued - ToSet(s.local), local := [])
  }

  ghost function WorkerApply(s: State, i: nat): State
    requires Enabled(s, WorkerStep(i))
  {
    var w := s.workers[i];
    match w.pc
    case Enters => Put(s, i, w.(pc := Sleeps)).(activeOwner := Some(Pool(i)))
    case Sleeps => Put(s, i, Worker(Asleep, [], [], 0, true)).(activeOwner := None)
    case Asleep => s
    case Roused => Put(s, i, w.(pc := Chooses)).(activeOwner := Some(Pool(i)))
    case Chooses =>
      if s.active.numItems > 0 && s.active.items != [] then Put(s, i,
          w.(pc := Releases, hand := [s.active.items[0]])).(active := s.active.Dequeue())
      else Put(s, i, w.(pc := Files)).(readyOwner := Some(Pool(i)))
    case Releases => Put(s, i, w.(pc := Relays)).(activeOwner := None)
    case Relays => Put(s, i, w.(pc := Returns, local := w.local + w.hand, hand := [],
                                readyItems := w.readyItems + 1)).(relayed := s.relayed + w.hand)
    case Returns => Put(s, i, w.(pc := Chooses)).(activeOwner := Some(Pool(i)))
    case Files => Put(s, i, w.(pc := Unlocks, local := [])).(ready := s.ready.EnqueueList(w.local, w.readyItems))
    case Unlocks => Put(s, i, w.(pc := Reports)).(readyOwner := None)
    case Reports =>
      Put(s, i, Worker(Sleeps, [], [], 0, true)).(pc := if s.pc == Waits then Relocks else s.pc, busy := None)
  }

  ghost function Apply(s: State, a: Action): State
    requires Enabled(s, a)
  {
    match a
    case PollerStep(owners, wake) => PollerApply(s, owners, wake)
    case WorkerStep(i) => WorkerApply(s, i)
  }

  // ---- What every reachable state keeps ----

  predicate PollerHasActive(pc: PollerPc) {
    pc in {Enqueues, LocksReady, Signals, UnlocksActive}
  }

  predicate PollerHasReady(pc: PollerPc) {
    pc in {Signals, UnlocksActive, Checks, UnlocksReady}
  }

  predicate HasActive(pc: WorkerPc) {
    pc in {Sleeps, Chooses, Releases, Files, Unlocks, Reports}
  }

  predicate HasReady(pc: WorkerPc) {
    pc in {Files, Unlocks}
  }

  predicate Awake(pc: WorkerPc) {
    pc !in {Enters, Sleeps, Asleep}
  }

  predicate InPool(owner: Option<Thread>, n: nat) {
    owner.Some? && owner.value.Pool? ==> owner.value.i < n
  }

  /** A lock belongs to the thread whose position says so, and to no other. */
  ghost predicate ActiveOk(s: State) {
    && (s.activeOwner == Some(Poller) <==> PollerHasActive(s.pc))
    && (forall i: nat | i < |s.workers| :: HasActive(s.workers[i].pc) <==> s.activeOwner == Some(Pool(i)))
    && InPool(s.activeOwner, |s.workers|)
  }

  ghost predicate ReadyOk(s: State) {
    && (s.readyOwner == Some(Poller) <==> PollerHasReady(s.pc))
    && (forall i: nat | i < |s.workers| :: HasReady(s.workers[i].pc) <==> s.readyOwner == Some(Pool(i)))
    && InPool(s.readyOwner, |s.workers|)
  }

  ghost predicate LocksOk(s: State) {
    ActiveOk(s) && ReadyOk(s)
  }

  ghost predicate WorkerOk(w: Worker) {
    && w.readyItems == (if w.pc in {Unlocks, Reports} then w.readyItems else |w.local|)
    && (w.pc in {Releases, Relays} <==> |w.hand| == 1) && |w.hand| <= 1
    && (!Awake(w.pc) || w.pc in {Unlocks, Reports} ==> w.local == [])
    && (w.pc == Enters ==> !w.waited) && (w.pc == Asleep || Awake(w.pc) ==> w.waited)
  }

  /** At most one worker is awake, the one woken for the round. */
  ghost predicate OneAwake(s: State) {
    && (forall i | 0 <= i < |s.workers| :: WorkerOk(s.workers[i]) && (Awake(s.workers[i].pc) <==> s.busy == Some(i)))
    && (s.busy.Some? ==> s.busy.value < |s.workers|)
  }

  /** The proxies are where the poller's position says. */
  ghost predicate RoundOk(s: State) {
    && s.active.Counted() && s.ready.Counted() && Distinct(s.round)
    && (s.pc !in {LocksActive, Enqueues, UnlocksReady, Clears} ==> s.local == [])
    && (s.pc == Idle ==>
        s.enqueued == {} && s.relayed == s.round && s.active.items == [] && s.ready.items == []
        && s.busy == None)
    && (s.pc != Idle ==> s.round != [] && s.numWorks == |s.round| && s.enqueued == ToSet(s.round))
    && (s.pc in {LocksActive, Enqueues} ==>
          s.local == s.round && s.active.items == [] && s.ready.items == [] && s.relayed == [] && s.busy == None)
    && (s.pc in {LocksReady, Signals} ==> Untouched(s))
    && (s.pc == UnlocksActive ==> Untouched(s) || UnderWay(s))
    && (s.pc == Checks ==> Untouched(s) || UnderWay(s) || Handed(s))
    && (s.pc == Waits ==> Untouched(s) || UnderWay(s) || Filed(s))
    && (s.pc == Relocks ==> Handed(s))
    && (s.pc in {UnlocksReady, Clears} ==>
          s.local == s.round == s.relayed && s.active.items == [] && s.ready.items == [] && s.busy == None)
  }

  ghost predicate Untouched(s: State) {
    s.active.items == s.round && s.ready.items == [] && s.relayed == [] && s.busy == None
  }

  /** The worker has relayed some, holds at most one, and leaves the rest in the queue. */
  ghost predicate UnderWay(s: State) {
    && s.busy.Some? && s.busy.value < |s.workers| && s.ready.items == []
    && var w := s.workers[s.busy.value];
    && w.pc !in {Unlocks, Reports} && s.relayed == w.local
    && w.local + w.hand + s.active.items == s.round
    && (w.pc == Files ==> s.active.items == [])
  }

  ghost predicate Filed(s: State) {
    && s.busy.Some? && s.busy.value < |s.workers| && s.workers[s.busy.value].pc in {Unlocks, Reports}
    && s.active.items == [] && s.ready.items == s.round == s.relayed
  }

  ghost predicate Handed(s: State) {
    s.busy == None && s.active.items == [] && s.ready.items == s.round == s.relayed
  }

  ghost predicate Inv(s: State) {
    LocksOk(s) && OneAwake(s) && RoundOk(s)
  }

  /** n workers about to enter, and an idle poller. */
  ghost predicate Init(s: State, n: nat) {
    s == State(Queue([], 0), Queue([], 0), None, None, Idle, [], 0, {},
               seq<Worker>(n, _ => Worker(Enters, [], [], 0, false)), [], [], None)
  }

  lemma InitOk(s: State, n: nat)
    requires Init(s, n)
    ensures Inv(s)
  {
  }

  lemma {:induction false} PollerKeepsLocks(s: State, owners: seq<nat>, wake: nat)
    requires Inv(s) && Enabled(s, PollerStep(owners, wake))
    ensures LocksOk(PollerApply(s, owners, wake))
  {
    hide Enabled, PollerApply, ActiveOk, ReadyOk, OneAwake, RoundOk;
    PollerKeepsActive(s, owners, wake);
    PollerKeepsReady(s, owners, wake);
  }

  lemma {:induction false} PollerKeepsActive(s: State, owners: seq<nat>, wake: nat)
    requires ActiveOk(s) && Enabled(s, PollerStep(owners, wake))
    ensures ActiveOk(PollerApply(s, owners, wake))
  {
  }

  lemma {:induction false} PollerKeepsReady(s: State, owners: seq<nat>, wake: nat)
    requires ReadyOk(s) && Enabled(s, PollerStep(owners, wake))
    ensures ReadyOk(PollerApply(s, owners, wake))
  {
  }

  lemma {:induction false} PollerKeepsAwake(s: State, owners: seq<nat>, wake: nat)
    requires Inv(s) && Enabled(s, PollerStep(owners, wake))
    ensures OneAwake(PollerApply(s, owners, wake))
  {
    hide LocksOk;
  }

  lemma {:induction false} PollerKeepsRound(s: State, owners: seq<nat>, wake: nat)
    requires Inv(s) && Enabled(s, PollerStep(owners, wake))
    ensures RoundOk(PollerApply(s, owners, wake))
  {
    hide LocksOk;
    if s.pc == Idle {
      GatherOnce(owners, s.enqueued);
    }
  }

  /** A lock is kept or left alone, taken when free, or given back. */
  ghost predicate Moves(had: bool, has: bool, owner: Option<Thread>, owner': Option<Thread>, i: nat) {
    || (had == has && owner' == owner)
    || (!had && has && owner == None && owner' == Some(Pool(i)))
    || (had && !has && owner' == None)
  }

  lemma ReadyMoves(s: State, s': State, i: nat)
    requires ReadyOk(s) && i < |s.workers| == |s'.workers|
             && (forall j | 0 <= j < |s.workers| && j != i :: s'.workers[j] == s.workers[j])
    requires PollerHasReady(s'.pc) == PollerHasReady(s.pc)
    requires Moves(HasReady(s.workers[i].pc), HasReady(s'.workers[i].pc), s.readyOwner, s'.readyOwner, i)
    ensures ReadyOk(s')
  {
    hide HasReady, PollerHasReady;
  }

  lemma ActiveMoves(s: State, s': State, i: nat)
    requires ActiveOk(s) && i < |s.workers| == |s'.workers|
             && (forall j | 0 <= j < |s.workers| && j != i :: s'.workers[j] == s.workers[j])
    requires PollerHasActive(s'.pc) == PollerHasActive(s.pc)
    requires Moves(HasActive(s.workers[i].pc), HasActive(s'.workers[i].pc), s.activeOwner, s'.activeOwner, i)
    ensures ActiveOk(s')
  {
    hide HasActive, PollerHasActive;
  }

  lemma {:induction false} ReadyUntouched(s: State, i: nat)
    requires Inv(s) && Enabled(s, WorkerStep(i)) && s.workers[i].pc !in {Chooses, Files, Unlocks}
    ensures ReadyOk(WorkerApply(s, i))
  {
    hide Inv, ReadyOk;
    assert ReadyOk(s) by { InvParts(s); }
    ReadyMoves(s, WorkerApply(s, i), i);
  }

  lemma InvParts(s: State)
    requires Inv(s)
    ensures ActiveOk(s) && ReadyOk(s) && OneAwake(s) && s.active.Counted()
  {
  }

  lemma {:induction false} WorkerKeepsReady(s: State, i: nat)
    requires Inv(s) && Enabled(s, WorkerStep(i))
    ensures ReadyOk(WorkerApply(s, i))
  {
    hide Inv, ReadyOk;
    if s.workers[i].pc in {Chooses, Files, Unlocks} {
      InvParts(s);
      ReadyMoves(s, WorkerApply(s, i), i);
    } else {
      ReadyUntouched(s, i);
    }
  }

  lemma {:induction false} WorkerKeepsActive(s: State, i: nat)
    requires Inv(s) && Enabled(s, WorkerStep(i))
    ensures ActiveOk(WorkerApply(s, i))
  {
    hide Inv, ActiveOk;
    InvParts(s);
    ActiveMoves(s, WorkerApply(s, i), i);
  }

  lemma AwakeMoves(s: State, s': State, i: nat)
    requires OneAwake(s) && i < |s.workers| == |s'.workers|
             && (forall j | 0 <= j < |s.workers| && j != i :: s'.workers[j] == s.workers[j])
    requires WorkerOk(s'.workers[i]) && (Awake(s'.workers[i].pc) <==> s'.busy == Some(i))
    requires s'.busy == s.busy || (s.busy == Some(i) && s'.busy == None)
    ensures OneAwake(s')
  {
    hide WorkerOk, Awake;
  }

  lemma {:induction false} WorkerStaysOk(s: State, i: nat)
    requires Enabled(s, WorkerStep(i)) && WorkerOk(s.workers[i]) && s.active.Counted()
    ensures |WorkerApply(s, i).workers| == |s.workers| && WorkerOk(WorkerApply(s, i).workers[i])
  {
  }

  lemma {:induction false} BusyFollows(s: State, i: nat)
    requires Enabled(s, WorkerStep(i)) && (Awake(s.workers[i].pc) <==> s.busy == Some(i))
    ensures var s' := WorkerApply(s, i);
            && |s'.workers| == |s.workers|
            && (forall j | 0 <= j < |s.workers| && j != i :: s'.workers[j] == s.workers[j])
            && (Awake(s'.workers[i].pc) <==> s'.busy == Some(i))
            && (s'.busy == s.busy || (s.busy == Some(i) && s'.busy == None))
  {
  }

  lemma {:induction false} WorkerKeepsAwake(s: State, i: nat)
    requires Inv(s) && Enabled(s, WorkerStep(i))
    ensures OneAwake(WorkerApply(s, i))
  {
    InvParts(s);
    assert WorkerOk(s.workers[i]) && (Awake(s.workers[i].pc) <==> s.busy == Some(i)) by { assert OneAwake(s); }
    hide Inv, OneAwake, WorkerApply, WorkerOk, Awake;
    WorkerStaysOk(s, i);
    BusyFollows(s, i);
    AwakeMoves(s, WorkerApply(s, i), i);
  }

  lemma {:induction false} RestingKeepsRound(s: State, i: nat)
    requires Inv(s) && Enabled(s, WorkerStep(i)) && !Awake(s.workers[i].pc)
    ensures RoundOk(WorkerApply(s, i))
  {
    hide LocksOk, Distinct, WorkerOk;
  }

  lemma {:induction false} LockingKeepsRound(s: State, i: nat)
    requires Inv(s) && Enabled(s, WorkerStep(i)) && s.workers[i].pc in {Roused, Releases, Returns}
    ensures RoundOk(WorkerApply(s, i))
  {
    assert s.busy == Some(i);
    hide LocksOk, Distinct, WorkerOk;
  }

  lemma {:induction false} RelayingKeepsRound(s: State, i: nat)
    requires Inv(s) && Enabled(s, WorkerStep(i)) && s.workers[i].pc == Relays
    ensures RoundOk(WorkerApply(s, i))
  {
    assert s.busy == Some(i);
    hide LocksOk, Distinct;
  }

  lemma {:induction false} TakingKeepsRound(s: State, i: nat)
    requires Inv(s) && Enabled(s, WorkerStep(i)) && s.workers[i].pc == Chooses
    ensures RoundOk(WorkerApply(s, i))
  {
    assert s.busy == Some(i);
    hide LocksOk, Distinct;
  }

  lemma {:induction false} FilingKeepsRound(s: State, i: nat)
    requires Inv(s) && Enabled(s, WorkerStep(i)) && s.workers[i].pc in {Files, Unlocks, Reports}
    ensures RoundOk(WorkerApply(s, i))
  {
    assert s.busy == Some(i);
    assert HasReady(s.workers[i].pc) ==> !PollerHasReady(s.pc);
    hide LocksOk, Distinct;
  }

  lemma {:induction false} WorkerKeepsRound(s: State, i: nat)
    requires Inv(s) && Enabled(s, WorkerStep(i))
    ensures RoundOk(WorkerApply(s, i))
  {
    var pc := s.workers[i].pc;
    hide Inv, WorkerApply, RoundOk;
    if !Awake(pc) {
      RestingKeepsRound(s, i);
    } else if pc in {Roused, Releases, Returns} {
      LockingKeepsRound(s, i);
    } else if pc == Chooses {
      TakingKeepsRound(s, i);
    } else if pc == Relays {
      RelayingKeepsRound(s, i);
    } else {
      FilingKeepsRound(s, i);
    }
  }

  lemma {:induction false} StepKeepsInv(s: State, a: Action)
    requires Inv(s) && Enabled(s, a)
    ensures Inv(Apply(s, a))
  {
    hide ActiveOk, ReadyOk, OneAwake, RoundOk, Enabled, PollerApply, WorkerApply;
    match a {
      case PollerStep(owners, wake) =>
        PollerKeepsLocks(s, owners, wake);
        PollerKeepsAwake(s, owners, wake);
        PollerKeepsRound(s, owners, wake);
      case WorkerStep(i) =>
        WorkerKeepsActive(s, i);
        WorkerKeepsReady(s, i);
        WorkerKeepsAwake(s, i);
        WorkerKeepsRound(s, i);
    }
  }

  /** The states a run passes through, each reached by an enabled step of some thread. */
  ghost predicate IsRun(n: nat, run: seq<State>, acts: seq<Action>) {
    && |run| == |acts| + 1 && Init(run[0], n)
    && forall k | 0 <= k < |acts| :: Enabled(run[k], acts[k]) && run[k + 1] == Apply(run[k], acts[k])
  }

  ghost predicate Reachable(n: nat, s: State) {
    exists run: seq<State>, acts: seq<Action> :: IsRun(n, run, acts) && run[|acts|] == s
  }

  lemma {:induction false} RunKeepsInv(n: nat, run: seq<State>, acts: seq<Action>, k: nat)
    requires IsRun(n, run, acts) && k < |run|
    ensures Inv(run[k])
    decreases k
  {
    hide Inv, Enabled, Apply;
    if k == 0 {
      InitOk(run[0], n);
    } else {
      RunKeepsInv(n, run, acts, k - 1);
      assert Enabled(run[k - 1], acts[k - 1]);
      StepKeepsInv(run[k - 1], acts[k - 1]);
    }
  }

  /** Any number of workers, any schedule. */
  lemma {:induction false} ReachableInv(n: nat, s: State)
    requires Reachable(n, s)
    ensures Inv(s)
  {
    hide Inv, Enabled, Apply, Init;
    var run: seq<State>, acts: seq<Action> :| IsRun(n, run, acts) && run[|acts|] == s;
    RunKeepsInv(n, run, acts, |acts|);
  }

  lemma {:induction false} ReachStep(n: nat, s: State, a: Action)
    requires Reachable(n, s) && Enabled(s, a)
    ensures Reachable(n, Apply(s, a))
  {
    hide Enabled, Apply, Init;
    var run: seq<State>, acts: seq<Action> :| IsRun(n, run, acts) && run[|acts|] == s;
    var run', acts' := run + [Apply(s, a)], acts + [a];
    forall k | 0 <= k < |acts'| ensures Enabled(run'[k], acts'[k]) && run'[k + 1] == Apply(run'[k], acts'[k]) {
      assert k < |acts| ==> run'[k] == run[k] && run'[k + 1] == run[k + 1] && acts'[k] == acts[k];
    }
    assert IsRun(n, run', acts') && run'[|acts'|] == Apply(s, a);
  }

  // ---- What the rounds achieve ----

  /** What the awake worker has in its hands: what it relayed, then what it is relaying. */
  ghost function InHands(s: State): seq<nat>
    requires s.busy.Some? ==> s.busy.value < |s.workers|
  {
    if s.busy.Some? then s.workers[s.busy.value].local + s.workers[s.busy.value].hand else []
  }

  /** In every reachable state, from the moment the proxies are queued until the poller has
      them back, each one is in exactly one place, in order, and those relayed are the first
      ones, each relayed once. */
  lemma {:induction false} EachInOnePlace(n: nat, s: State)
    requires Reachable(n, s)
    ensures Distinct(s.round) && s.relayed <= s.round && (s.busy.Some? ==> s.busy.value < |s.workers|)
    ensures s.pc != Idle ==> s.ready.items + InHands(s) + s.active.items + s.local == s.round
    ensures s.active.numItems == |s.active.items| && s.ready.numItems == |s.ready.items|
  {
    ReachableInv(n, s);
    hide Reachable, LocksOk;
    InOnePlace(s);
  }

  lemma {:induction false} InOnePlace(s: State)
    requires Inv(s)
    ensures Distinct(s.round) && s.relayed <= s.round && (s.busy.Some? ==> s.busy.value < |s.workers|)
    ensures s.pc != Idle ==> s.ready.items + InHands(s) + s.active.items + s.local == s.round
    ensures s.active.numItems == |s.active.items| && s.ready.numItems == |s.ready.items|
  {
    hide LocksOk, Distinct;
    Together(s.ready.items, InHands(s), s.active.items, s.local);
    if UnderWay(s) {
      var w := s.workers[s.busy.value];
      assert s.round == w.local + (w.hand + s.active.items);
    } else if s.pc !in {Idle, LocksActive, Enqueues, UnlocksReady, Clears} {
      assert InHands(s) == [];
    }
  }

  lemma Together(a: seq<nat>, b: seq<nat>, c: seq<nat>, d: seq<nat>)
    ensures a == [] && b == [] && c == [] ==> a + b + c + d == d
    ensures a == [] && b == [] && d == [] ==> a + b + c + d == c
    ensures b == [] && c == [] && d == [] ==> a + b + c + d == a
    ensures a == [] && d == [] ==> a + b + c + d == b + c
  {
  }

  /** The poller leaves the wait only when every proxy of the round was relayed and returned,
      and then no worker holds any. */
  lemma {:induction false} ResumesWhenAllDone(s: State, owners: seq<nat>, wake: nat)
    requires Inv(s) && s.pc == Checks && Enabled(s, PollerStep(owners, wake))
    ensures var s' := PollerApply(s, owners, wake);
            s'.pc != Waits ==> s'.local == s.round == s.relayed && s'.active.items == [] && s'.ready.items == []
                               && forall i | 0 <= i < |s'.workers| ::
                                 s'.workers[i].hand == [] && s'.workers[i].local == []
  {
    hide LocksOk;
  }

  /** No list is empty when it is spliced into a queue or out of one. */
  lemma {:induction false} SplicesAreNonempty(s: State)
    requires Inv(s)
    ensures s.pc == Enqueues ==> s.local != []
    ensures s.pc == Checks && s.ready.numItems == s.numWorks ==> s.ready.items != []
    ensures forall i | 0 <= i < |s.workers| && s.workers[i].pc == Files :: s.workers[i].local != []
    ensures forall i | 0 <= i < |s.workers| && s.workers[i].pc == Chooses && s.active.numItems > 0 ::
            s.active.items != []
  {
  }

  // ---- Lost and received signals ----

  /** Some worker has reached the wait at least once. */
  ghost predicate Warm(s: State) {
    exists i :: 0 <= i < |s.workers| && s.workers[i].waited
  }

  /** The poller has signalled the round and nobody was woken for it. */
  ghost predicate Lost(s: State) {
    s.pc in {UnlocksActive, Checks, Waits} && Untouched(s)
  }

  /** The signal of a round is lost exactly if no worker has ever waited before it. */
  lemma {:induction false} LostIffCold(s: State, owners: seq<nat>, wake: nat)
    requires Inv(s) && s.pc == Signals && Enabled(s, PollerStep(owners, wake))
    ensures Lost(PollerApply(s, owners, wake)) <==> !Warm(s)
  {
    if Warm(s) {
      var i :| 0 <= i < |s.workers| && s.workers[i].waited;
      assert s.workers[i].pc == Asleep;
    } else {
      assert !SomeAsleep(s);
    }
  }

  /** Who has waited once stays counted, so a warm pool stays warm. */
  lemma {:induction false} WarmStays(s: State, a: Action)
    requires Inv(s) && Warm(s) && Enabled(s, a)
    ensures Warm(Apply(s, a))
  {
    hide LocksOk, RoundOk, OneAwake;
    var i :| 0 <= i < |s.workers| && s.workers[i].waited;
    assert Apply(s, a).workers[i].waited;
  }

  /** A lost signal is final: whatever the threads do, the round stays untouched. */
  lemma {:induction false} LostStays(s: State, a: Action)
    requires Inv(s) && Lost(s) && Enabled(s, a)
    ensures Lost(Apply(s, a))
  {
    if a.WorkerStep? {
      assert !Awake(s.workers[a.i].pc);
    }
  }

  // ---- Progress ----

  function PollerRank(s: State): nat {
    match s.pc
    case Idle => 0
    case Clears => 1
    case UnlocksReady => 2
    case Checks => if s.ready.numItems == s.numWorks then 3 else 6
    case Relocks => 4
    case Waits => 5
    case UnlocksActive => 7
    case Signals => 15
    case LocksReady => 16
    case Enqueues => 17
    case LocksActive => 18
  }

  function WorkerRank(pc: WorkerPc): nat {
    match pc
    case Asleep => 0
    case Sleeps => 1
    case Enters => 2
    case Reports => 3
    case Unlocks => 4
    case Files => 5
    case Chooses => 6
    case Roused => 7
    case Returns => 7
    case Relays => 8
    case Releases => 9
  }

  function Ranks(ws: seq<Worker>): nat {
    if ws == [] then 0 else WorkerRank(ws[0].pc) + Ranks(ws[1..])
  }

  /** An upper bound on the steps until the round is over: four for each proxy not yet taken,
      and those of the threads' own positions. */
  function Rank(s: State): nat {
    4 * (|s.active.items| + if s.pc in {LocksActive, Enqueues} then |s.local| else 0) + PollerRank(s) + Ranks(s.workers)
  }

  lemma {:induction false} RanksUpdate(ws: seq<Worker>, i: nat, w: Worker)
    requires i < |ws|
    ensures Ranks(ws[i := w]) == Ranks(ws) - WorkerRank(ws[i].pc) + WorkerRank(w.pc)
  {
    if i > 0 {
      RanksUpdate(ws[1..], i - 1, w);
      assert ws[i := w][1..] == ws[1..][i - 1 := w];
    }
  }

  lemma {:induction false} PollerLowersRank(s: State, owners: seq<nat>, wake: nat)
    requires Inv(s) && Enabled(s, PollerStep(owners, wake)) && s.pc != Idle
    ensures Rank(PollerApply(s, owners, wake)) < Rank(s)
  {
    hide Ranks, LocksOk, OneAwake;
    if s.pc == Signals && SomeAsleep(s) {
      RanksUpdate(s.workers, wake, s.workers[wake].(pc := Roused));
    }
  }

  lemma PollerRankFalls(s: State, s': State)
    requires s'.pc == s.pc || (s.pc == Waits && s'.pc == Relocks)
    requires s'.ready == s.ready || s.pc == Waits
    requires s'.numWorks == s.numWorks
    ensures PollerRank(s') <= PollerRank(s)
  {
  }

  /** What a worker step does to the rest of the state. */
  lemma {:induction false} WorkerStepLeaves(s: State, i: nat)
    requires Enabled(s, WorkerStep(i))
    ensures var s' := WorkerApply(s, i);
            && |s'.workers| == |s.workers| && s'.workers == s.workers[i := s'.workers[i]]
            && s'.local == s.local && s'.numWorks == s.numWorks
  {
  }

  lemma {:induction false} WorkerStepPoller(s: State, i: nat)
    requires Enabled(s, WorkerStep(i)) && (s.workers[i].pc == Files ==> s.pc == Waits)
    ensures var s' := WorkerApply(s, i);
            && (s'.ready == s.ready || s.pc == Waits) && (s'.pc == s.pc || (s.pc == Waits && s'.pc == Relocks))
  {
  }

  lemma FilesWhileWaiting(s: State, i: nat)
    requires Inv(s) && i < |s.workers| && s.workers[i].pc == Files
    ensures s.pc == Waits
  {
    assert HasReady(s.workers[i].pc) && s.busy == Some(i);
  }

  lemma {:induction false} WorkerStepRank(s: State, i: nat)
    requires s.active.Counted() && Enabled(s, WorkerStep(i))
    ensures var s' := WorkerApply(s, i);
            && |s'.workers| == |s.workers|
            && 4 * |s'.active.items| + WorkerRank(s'.workers[i].pc) < 4 * |s.active.items| + WorkerRank(s.workers[i].pc)
  {
  }

  /** Every step but the start of a new round brings the round closer to its end, whichever
      thread takes it. */
  lemma {:induction false} StepLowersRank(s: State, a: Action)
    requires Inv(s) && Enabled(s, a) && !(a.PollerStep? && s.pc == Idle)
    ensures Rank(Apply(s, a)) < Rank(s)
  {
    match a {
      case PollerStep(owners, wake) => PollerLowersRank(s, owners, wake);
      case WorkerStep(i) =>
        WorkerStepRank(s, i);
        WorkerStepLeaves(s, i);
        if s.workers[i].pc == Files {
          FilesWhileWaiting(s, i);
        }
        WorkerStepPoller(s, i);
        PollerRankFalls(s, WorkerApply(s, i));
        hide Inv, Enabled, WorkerApply, PollerRank, WorkerRank, Ranks;
        RanksUpdate(s.workers, i, WorkerApply(s, i).workers[i]);
    }
  }

  /** As long as a round is under way and its signal was not lost, some thread can step: no
      deadlock, although poller and worker each hold one lock while they wait for the other. */
  lemma {:induction false} SomeStepEnabled(s: State) returns (a: Action)
    requires Inv(s) && s.pc != Idle && !Lost(s)
    ensures Enabled(s, a) && !(a.PollerStep? && s.pc == Idle)
  {
    if s.readyOwner.Some? && s.readyOwner.value.Pool? {
      assert HasReady(s.workers[s.readyOwner.value.i].pc) && HasActive(s.workers[s.readyOwner.value.i].pc);
    }
    var wake: nat := 0;
    if SomeAsleep(s) {
      wake :| wake < |s.workers| && s.workers[wake].pc == Asleep;
    }
    a := PollerStep([], wake);
    if !Enabled(s, a) {
      match s.activeOwner {
        case Some(Pool(i)) => a := WorkerStep(i);
        case None =>
          if s.busy.Some? {
            a := WorkerStep(s.busy.value);
          }
        case Some(Poller) =>
      }
    }
  }

  /** Steps of one round: the poller does not start another one. */
  ghost predicate SameRound(run: seq<State>, acts: seq<Action>) {
    && |run| == |acts| + 1
    && forall k | 0 <= k < |acts| ::
         Enabled(run[k], acts[k]) && run[k + 1] == Apply(run[k], acts[k]) && !(acts[k].PollerStep? && run[k].pc == Idle)
  }

  lemma {:induction false} RoundIsBounded(run: seq<State>, acts: seq<Action>)
    requires SameRound(run, acts) && Inv(run[0])
    ensures Inv(run[|acts|]) && |acts| + Rank(run[|acts|]) <= Rank(run[0])
    decreases |acts|
  {
    hide Inv, Rank, Enabled, Apply;
    if acts != [] {
      var n := |acts| - 1;
      assert SameRound(run[..n + 1], acts[..n]);
      RoundIsBounded(run[..n + 1], acts[..n]);
      assert run[..n + 1][n] == run[n] && run[n + 1] == Apply(run[n], acts[n]);
      StepKeepsInv(run[n], acts[n]);
      StepLowersRank(run[n], acts[n]);
    }
  }

  lemma {:induction false} NotLostStays(s: State, a: Action)
    requires Inv(s) && Warm(s) && !Lost(s) && Enabled(s, a)
    ensures !Lost(Apply(s, a))
  {
    if a.PollerStep? && s.pc == Signals {
      LostIffCold(s, a.owners, a.wake);
    }
  }

  /** With one worker that has ever waited, every round that starts is completed under every
      schedule: when no thread can step any more, the poller has all proxies back. */
  lemma {:induction false} RoundCompletes(run: seq<State>, acts: seq<Action>)
    requires SameRound(run, acts) && Inv(run[0]) && Warm(run[0]) && run[0].pc == LocksActive
    requires forall a | Enabled(run[|acts|], a) :: a.PollerStep? && run[|acts|].pc == Idle
    ensures run[|acts|].pc == Idle && run[|acts|].round == run[|acts|].relayed && |acts| <= Rank(run[0])
    ensures run[|acts|].round == run[0].round
  {
    hide Rank, Enabled, Apply;
    KeepsGoing(run, acts);
    RoundIsBounded(run, acts);
    var s := run[|acts|];
    if s.pc != Idle {
      var a := SomeStepEnabled(s);
    }
  }

  lemma {:induction false} KeepsGoing(run: seq<State>, acts: seq<Action>)
    requires SameRound(run, acts) && Inv(run[0]) && Warm(run[0]) && !Lost(run[0])
    ensures Inv(run[|acts|]) && Warm(run[|acts|]) && !Lost(run[|acts|]) && run[|acts|].round == run[0].round
    decreases |acts|
  {
    hide Inv, Enabled, Warm, Lost;
    if acts != [] {
      var n := |acts| - 1;
      assert SameRound(run[..n + 1], acts[..n]);
      KeepsGoing(run[..n + 1], acts[..n]);
      assert run[..n + 1][n] == run[n] && run[n + 1] == Apply(run[n], acts[n]);
      StepKeepsInv(run[n], acts[n]);
      WarmStays(run[n], acts[n]);
      NotLostStays(run[n], acts[n]);
      SameRoundKept(run[n], acts[n]);
    }
  }

  lemma SameRoundKept(s: State, a: Action)
    requires Enabled(s, a) && !(a.PollerStep? && s.pc == Idle)
    ensures Apply(s, a).round == s.round
  {
  }

  /** The poller's first round for proxy 7, after k steps, before the only worker has stepped. */
  ghost function Cold(k: nat, ws: seq<Worker>): State {
    var none := Queue([], 0);
    var queued := State(Queue([7], 1), none, Some(Poller), None, LocksReady, [], 1, {7}, ws, [7], [], None);
    if k == 0 then State(none, none, None, None, Idle, [], 0, {}, ws, [], [], None)
    else if k == 1 then State(none, none, None, None, LocksActive, [7], 1, {7}, ws, [7], [], None)
    else if k == 2 then State(none, none, Some(Poller), None, Enqueues, [7], 1, {7}, ws, [7], [], None)
    else if k == 3 then queued
    else if k == 4 then queued.(pc := Signals, readyOwner := Some(Poller))
    else if k == 5 then queued.(pc := UnlocksActive, readyOwner := Some(Poller))
    else if k == 6 then queued.(pc := Checks, activeOwner := None, readyOwner := Some(Poller))
    else queued.(pc := Waits, activeOwner := None)
  }

  lemma ColdStep(k: nat, ws: seq<Worker>)
    requires k < 7 && forall i | 0 <= i < |ws| :: ws[i].pc != Asleep
    ensures Enabled(Cold(k, ws), PollerStep([7], 0)) && Apply(Cold(k, ws), PollerStep([7], 0)) == Cold(k + 1, ws)
  {
    assert Gather([7], {}) == [7] + Gather([], {7}) == [7];
    assert !SomeAsleep(Cold(k, ws));
  }

  lemma {:induction false} ColdRound(k: nat, ws: seq<Worker>)
    requires k <= 7 && Init(Cold(0, ws), 1)
    ensures Reachable(1, Cold(k, ws))
    decreases k
  {
    if k == 0 {
      var run, acts: seq<Action> := [Cold(0, ws)], [];
      assert IsRun(1, run, acts) && run[|acts|] == Cold(0, ws);
    } else {
      ColdRound(k - 1, ws);
      ColdStep(k - 1, ws);
      ReachStep(1, Cold(k - 1, ws), PollerStep([7], 0));
    }
  }

  lemma ColdWorker()
    ensures var cold, w := Worker(Enters, [], [], 0, false), WorkerStep(0);
            var s := Cold(7, [cold]);
            && Enabled(s, w) && Enabled(Apply(s, w), w)
            && Apply(Apply(s, w), w) == Cold(7, [Worker(Asleep, [], [], 0, true)])
  {
    var cold := Worker(Enters, [], [], 0, false);
    assert Apply(Cold(7, [cold]), WorkerStep(0)) == Cold(7, [cold.(pc := Sleeps)]).(activeOwner := Some(Pool(0)));
  }

  lemma ColdStuck()
    ensures var s := Cold(7, [Worker(Asleep, [], [], 0, true)]);
            s.pc == Waits && s.round == [7] && s.relayed == [] && forall a :: !Enabled(s, a)
  {
  }

  /** With workers that have not waited yet the promise fails: the first round of one worker
      is lost and no thread can ever step again. */
  lemma {:induction false} ColdPoolDeadlocks(s0: State) returns (s: State)
    requires Init(s0, 1)
    ensures Reachable(1, s) && s.pc == Waits && s.round == [7] && s.relayed == []
    ensures forall a :: !Enabled(s, a)
  {
    var cold, w := Worker(Enters, [], [], 0, false), WorkerStep(0);
    assert s0.workers == [cold];
    ColdRound(7, [cold]);
    ColdWorker();
    s := Cold(7, [Worker(Asleep, [], [], 0, true)]);
    ColdStuck();
    hide Reachable, Apply, Enabled, Cold;
    ReachStep(1, Cold(7, [cold]), w);
    ReachStep(1, Apply(Cold(7, [cold]), w), w);
  }
}
