/** The two locks that the kernel's threads share: the callback mutex of src/control/NetworkPatterns.cpp
    and the velocity guard of src/kernel/KermitNetworkInterface.cpp. Any number of threads. */
module Locks {
  import opened Bytes

  /** Where a thread is. The subscriber and the server take the callback mutex around a callback, which
      may take the guard inside; the publisher's get_data and print_state take the guard alone. */
  datatype Thread =
    | Idle
    | WantMutex(guarded: bool)   // blocked in lock_guard on the callback mutex
    | InCallback                 // holds the mutex, will not take the guard (any more)
    | WantGuardInside            // holds the mutex, blocked on the guard
    | InsideBoth                 // holds both
    | WantGuard                  // holds nothing, blocked on the guard
    | HasGuard                   // holds the guard alone
  {
    predicate HoldsMutex() { InCallback? || WantGuardInside? || InsideBoth? }
    predicate HoldsGuard() { InsideBoth? || HasGuard? }

    /** Steps left until the thread is idle again. */
    function Left(): nat {
      match this
      case Idle => 0
      case InCallback => 1
      case InsideBoth => 2
      case WantGuardInside => 3
      case WantMutex(guarded) => if guarded then 4 else 2
      case HasGuard => 1
      case WantGuard => 2
    }
  }

  type Threads = seq<Thread>

  predicate MutexFree(ts: Threads) {
    forall i :: 0 <= i < |ts| ==> !ts[i].HoldsMutex()
  }

  predicate GuardFree(ts: Threads) {
    forall i :: 0 <= i < |ts| ==> !ts[i].HoldsGuard()
  }

  /** A busy thread can take its next step. */
  predicate Enabled(ts: Threads, i: nat)
    requires i < |ts|
  {
    match ts[i]
    case Idle => false
    case WantMutex(_) => MutexFree(ts)
    case WantGuardInside => GuardFree(ts)
    case WantGuard => GuardFree(ts)
    case _ => true
  }

  function Stepped(t: Thread): Thread {
    match t
    case WantMutex(guarded) => if guarded then WantGuardInside else InCallback
    case WantGuardInside => InsideBoth
    case InsideBoth => InCallback
    case WantGuard => HasGuard
    case _ => Idle
  }

  /** Arrive: an idle thread gets a message or a deadline. */
  datatype Move = Arrive(thread: nat, want: Thread) | Go(thread: nat)

  predicate Legal(ts: Threads, m: Move) {
    m.thread < |ts| && match m
      case Arrive(i, want) => ts[i].Idle? && (want.WantMutex? || want.WantGuard?)
      case Go(i) => Enabled(ts, i)
  }

  function Next(ts: Threads, m: Move): (r: Threads)
    requires Legal(ts, m)
    ensures |r| == |ts|
  {
    match m
    case Arrive(i, want) => ts[i := want]
    case Go(i) => ts[i := Stepped(ts[i])]
  }

  predicate Exclusive(ts: Threads) {
    && (forall i, j :: 0 <= i < j < |ts| ==> !(ts[i].HoldsMutex() && ts[j].HoldsMutex()))
    && (forall i, j :: 0 <= i < j < |ts| ==> !(ts[i].HoldsGuard() && ts[j].HoldsGuard()))
  }

  /** Runs of n threads that are all idle at first. */
  function After(n: nat, moves: seq<Move>): (r: Option<Threads>)
    decreases |moves|
  {
    if moves == [] then Some(seq(n, _ => Idle))
    else match After(n, moves[..|moves| - 1])
      case None => None
      case Some(ts) => if Legal(ts, moves[|moves| - 1]) then Some(Next(ts, moves[|moves| - 1])) else None
  }

  lemma {:induction false} MutualExclusion(n: nat, moves: seq<Move>)
    requires After(n, moves).Some?
    ensures |After(n, moves).value| == n && Exclusive(After(n, moves).value)
    decreases |moves|
  {
    if moves != [] {
      MutualExclusion(n, moves[..|moves| - 1]);
    }
  }

  /** No reachable state is deadlocked: whenever a thread is busy, some busy thread can step. The guard's
      holder never waits, and the mutex's holder waits for the guard only. */
  lemma NoDeadlock(n: nat, moves: seq<Move>, busy: nat) returns (mover: nat)
    requires After(n, moves).Some? && busy < |After(n, moves).value|
    requires !After(n, moves).value[busy].Idle?
    ensures mover < |After(n, moves).value| && Enabled(After(n, moves).value, mover)
  {
    MutualExclusion(n, moves);
    var ts := After(n, moves).value;
    if i :| 0 <= i < n && ts[i].HoldsGuard() {
      mover := i;
    } else if i :| 0 <= i < n && ts[i].HoldsMutex() {
      mover := i;
    } else {
      mover := busy;
    }
  }

  function Work(ts: Threads): nat {
    if ts == [] then 0 else ts[0].Left() + Work(ts[1..])
  }

  lemma {:induction false} WorkUpdate(ts: Threads, i: nat, t: Thread)
    requires i < |ts|
    ensures Work(ts[i := t]) == Work(ts) - ts[i].Left() + t.Left()
  {
    if i > 0 {
      assert ts[i := t][1..] == ts[1..][i - 1 := t];
      WorkUpdate(ts[1..], i - 1, t);
    }
  }

  /** Every step uses up work: between arrivals, no schedule is longer than the work there is. */
  lemma StepUsesWork(ts: Threads, i: nat)
    requires i < |ts| && Enabled(ts, i)
    ensures Work(Next(ts, Go(i))) == Work(ts) - 1
  {
    WorkUpdate(ts, i, Stepped(ts[i]));
  }

  lemma {:induction false} NoWorkMeansIdle(ts: Threads)
    ensures Work(ts) == 0 <==> AllIdle(ts)
  {
    if ts != [] {
      NoWorkMeansIdle(ts[1..]);
      if AllIdle(ts[1..]) {
        assert forall i :: 1 <= i < |ts| ==> ts[i] == ts[1..][i - 1];
      }
    }
  }

  lemma SomeoneSteps(n: nat, moves: seq<Move>, ts: Threads) returns (mover: nat)
    requires After(n, moves) == Some(ts) && Work(ts) > 0
    ensures mover < |ts| && Enabled(ts, mover)
    ensures After(n, moves + [Go(mover)]) == Some(Next(ts, Go(mover)))
    ensures Work(Next(ts, Go(mover))) == Work(ts) - 1
  {
    NoWorkMeansIdle(ts);
    var busy :| 0 <= busy < |ts| && !ts[busy].Idle?;
    mover := NoDeadlock(n, moves, busy);
    StepUsesWork(ts, mover);
    assert (moves + [Go(mover)])[..|moves|] == moves;
  }

  predicate AllIdle(ts: Threads) {
    forall i :: 0 <= i < |ts| ==> ts[i].Idle?
  }

  /** So from every reachable state, exactly as many steps as there is work lead to all threads idle,
      with nobody left waiting. */
  lemma {:induction false} EveryoneFinishes(n: nat, moves: seq<Move>, ts: Threads) returns (steps: seq<Move>)
    requires After(n, moves) == Some(ts)
    ensures |steps| == Work(ts) && forall m :: m in steps ==> m.Go?
    ensures After(n, moves + steps).Some? && AllIdle(After(n, moves + steps).value)
    decreases Work(ts)
  {
    if Work(ts) == 0 {
      NoWorkMeansIdle(ts);
      steps := [];
      assert moves + steps == moves;
    } else {
      var mover := SomeoneSteps(n, moves, ts);
      var rest := EveryoneFinishes(n, moves + [Go(mover)], Next(ts, Go(mover)));
      steps := [Go(mover)] + rest;
      assert moves + steps == moves + [Go(mover)] + rest;
    }
  }
}
