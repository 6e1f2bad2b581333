/** The serial sender thread of src/kernel/KermitNetworkInterface.cpp against the kernel's callbacks,
    as an interleaving of single loads and stores.

    The ping server and the cmd_vel subscriber hold one mutex around each callback
    (src/control/NetworkPatterns.cpp), so callbacks exclude each other; the sender takes no lock, so its
    two loads may fall anywhere between a callback's two stores, and in either order (they are arguments
    of one call). */
module VelocitySender {
  import opened Bytes
  import opened KermitKernel
  import opened KernelHistory

  /** A callback in progress: which store comes next, of which pair, on behalf of a STOP or not. */
  datatype Callback = Idle | StoreLin(lin: Word, ang: Word, stop: bool) | StoreAng(ang: Word, stop: bool)

  datatype Shared = Shared(gate: bool, lin: Word, ang: Word, callback: Callback,
                           readLin: Option<Word>, readAng: Option<Word>)

  datatype Action = Begin(e: Event) | DoStoreLin | DoStoreAng | LoadLin | LoadAng | Send

  const START := Shared(false, ZERO, ZERO, Idle, None, None)

  predicate Enabled(s: Shared, a: Action) {
    match a
    case Begin(_) => s.callback.Idle?
    case DoStoreLin => s.callback.StoreLin?
    case DoStoreAng => s.callback.StoreAng?
    case LoadLin => s.readLin.None?
    case LoadAng => s.readAng.None?
    case Send => s.readLin.Some? && s.readAng.Some?
  }

  function Do(s: Shared, a: Action): Shared
    requires Enabled(s, a)
  {
    match a
    case Begin(e) =>
      if e.Drive? then
        if s.gate then s.(callback := StoreLin(e.lin, e.ang, false))
        else s.(callback := StoreLin(ZERO, ZERO, false))
      else if IsStop(e) then s.(gate := false, callback := StoreLin(ZERO, ZERO, true))
      else s.(gate := NextGate(s.gate, e))
    case DoStoreLin => s.(lin := s.callback.lin, callback := StoreAng(s.callback.ang, s.callback.stop))
    case DoStoreAng => s.(ang := s.callback.ang, callback := Idle)
    case LoadLin => s.(readLin := Some(s.lin))
    case LoadAng => s.(readAng := Some(s.ang))
    case Send => s.(readLin := None, readAng := None)
  }

  predicate Legal(acts: seq<Action>)
    decreases |acts|, 0
  {
    acts == [] || (Legal(acts[..|acts| - 1]) && Enabled(After(acts[..|acts| - 1]), acts[|acts| - 1]))
  }

  function After(acts: seq<Action>): Shared
    requires Legal(acts)
    decreases |acts|, 1
  {
    if acts == [] then START else Do(After(acts[..|acts| - 1]), acts[|acts| - 1])
  }

  lemma {:induction false} LegalPrefix(acts: seq<Action>, i: nat)
    requires Legal(acts) && i <= |acts|
    ensures Legal(acts[..i])
    decreases |acts|
  {
    if i == |acts| {
      assert acts[..i] == acts;
    } else {
      LegalPrefix(acts[..|acts| - 1], i);
      assert acts[..|acts| - 1][..i] == acts[..i];
    }
  }

  /** The step at index i of a run. */
  lemma StepAt(acts: seq<Action>, i: nat)
    requires Legal(acts) && i < |acts|
    ensures Legal(acts[..i]) && Legal(acts[..i + 1])
    ensures Enabled(After(acts[..i]), acts[i])
    ensures After(acts[..i + 1]) == Do(After(acts[..i]), acts[i])
  {
    LegalPrefix(acts, i + 1);
    var p := acts[..i + 1];
    assert p[..|p| - 1] == acts[..i] && p[|p| - 1] == acts[i];
  }

  // ---------------------------------------------------------------- it refines the atomic kernel

  function Delivered(acts: seq<Action>): seq<Event> {
    if acts == [] then []
    else
      var a := acts[|acts| - 1];
      Delivered(acts[..|acts| - 1]) + if a.Begin? then [a.e] else []
  }

  /** What the velocities will be when the callback in progress, if any, has finished. */
  function Settled(s: Shared): State {
    match s.callback
    case Idle => State(s.gate, s.lin, s.ang)
    case StoreLin(l, a, _) => State(s.gate, l, a)
    case StoreAng(a, _) => State(s.gate, s.lin, a)
  }

  /** Store by store, with the sender in between, the callbacks do what the atomic kernel does. */
  lemma {:induction false} RefinesKernel(acts: seq<Action>)
    requires Legal(acts)
    ensures Settled(After(acts)) == Run(Delivered(acts))
    decreases |acts|
  {
    if acts != [] {
      var n := |acts| - 1;
      RefinesKernel(acts[..n]);
      SettledStep(After(acts[..n]), acts[n]);
      if acts[n].Begin? {
        RunSnoc(Delivered(acts[..n]), acts[n].e);
      } else {
        assert Delivered(acts) == Delivered(acts[..n]);
      }
    }
  }

  lemma SettledStep(s: Shared, a: Action)
    requires Enabled(s, a)
    ensures Settled(Do(s, a)) == if a.Begin? then Step(Settled(s), a.e) else Settled(s)
  {
  }

  lemma RunSnoc(events: seq<Event>, e: Event)
    ensures Run(events + [e]) == Step(Run(events), e)
  {
    assert (events + [e])[..|events|] == events;
  }

  // ---------------------------------------------------------------- the frames

  /** The send at index k carries what the loads before it picked up. */
  function Frame(acts: seq<Action>, k: nat): (f: (Word, Word))
    requires Legal(acts) && k < |acts| && acts[k].Send?
  {
    StepAt(acts, k);
    (After(acts[..k]).readLin.value, After(acts[..k]).readAng.value)
  }

  predicate LinFrom(acts: seq<Action>, w: Word) {
    w == ZERO || exists i :: 0 <= i < |acts| && acts[i].Begin? && acts[i].e.Drive? && acts[i].e.lin == w
  }

  predicate AngFrom(acts: seq<Action>, w: Word) {
    w == ZERO || exists i :: 0 <= i < |acts| && acts[i].Begin? && acts[i].e.Drive? && acts[i].e.ang == w
  }

  lemma FromGrows(acts: seq<Action>, n: nat, w: Word)
    requires n <= |acts|
    ensures LinFrom(acts[..n], w) ==> LinFrom(acts, w)
    ensures AngFrom(acts[..n], w) ==> AngFrom(acts, w)
  {
    if w != ZERO && LinFrom(acts[..n], w) {
      var i :| 0 <= i < n && acts[..n][i].Begin? && acts[..n][i].e.Drive? && acts[..n][i].e.lin == w;
      assert acts[i].Begin?;
    }
    if w != ZERO && AngFrom(acts[..n], w) {
      var i :| 0 <= i < n && acts[..n][i].Begin? && acts[..n][i].e.Drive? && acts[..n][i].e.ang == w;
      assert acts[i].Begin?;
    }
  }

  predicate AllFrom(acts: seq<Action>, s: Shared) {
    && LinFrom(acts, s.lin) && AngFrom(acts, s.ang)
    && (s.callback.StoreLin? ==> LinFrom(acts, s.callback.lin) && AngFrom(acts, s.callback.ang))
    && (s.callback.StoreAng? ==> AngFrom(acts, s.callback.ang))
    && (s.readLin.Some? ==> LinFrom(acts, s.readLin.value))
    && (s.readAng.Some? ==> AngFrom(acts, s.readAng.value))
  }

  lemma {:induction false} EveryWordHasASource(acts: seq<Action>)
    requires Legal(acts)
    ensures AllFrom(acts, After(acts))
    decreases |acts|
  {
    if acts != [] {
      var n := |acts| - 1;
      EveryWordHasASource(acts[..n]);
      AllFromGrows(acts, n, After(acts[..n]));
      StepKeepsSources(acts, After(acts[..n]), acts[n]);
    }
  }

  lemma AllFromGrows(acts: seq<Action>, n: nat, s: Shared)
    requires n <= |acts| && AllFrom(acts[..n], s)
    ensures AllFrom(acts, s)
  {
    forall w: Word
      ensures LinFrom(acts[..n], w) ==> LinFrom(acts, w)
      ensures AngFrom(acts[..n], w) ==> AngFrom(acts, w)
    {
      FromGrows(acts, n, w);
    }
  }

  lemma StepKeepsSources(acts: seq<Action>, s: Shared, a: Action)
    requires Enabled(s, a) && AllFrom(acts, s) && a in acts
    ensures AllFrom(acts, Do(s, a))
  {
    if a.Begin? && a.e.Drive? {
      assert LinFrom(acts, a.e.lin) && AngFrom(acts, a.e.ang);
    }
  }

  /** Torn or not, no frame ever carries anything but zero and components of delivered cmd_vels. */
  lemma FrameComponents(acts: seq<Action>, k: nat)
    requires Legal(acts) && k < |acts| && acts[k].Send?
    ensures LinFrom(acts[..k], Frame(acts, k).0) && AngFrom(acts[..k], Frame(acts, k).1)
  {
    StepAt(acts, k);
    EveryWordHasASource(acts[..k]);
  }

  // ---------------------------------------------------------------- quiet after STOP_EVERYTHING

  predicate Calm(s: Shared) {
    && !s.gate && s.lin == ZERO && s.ang == ZERO
    && (s.callback.StoreLin? ==> s.callback.lin == s.callback.ang == ZERO)
    && (s.callback.StoreAng? ==> s.callback.ang == ZERO)
  }

  /** The action at p is the last store of a STOP_EVERYTHING callback. */
  predicate StopCompletes(acts: seq<Action>, p: nat)
    requires Legal(acts) && p < |acts|
  {
    LegalPrefix(acts, p);
    acts[p].DoStoreAng? && After(acts[..p]).callback.StoreAng? && After(acts[..p]).callback.stop
  }

  predicate NoOpening(acts: seq<Action>, from: nat, to: nat)
    requires to <= |acts|
  {
    forall m :: from <= m < to && acts[m].Begin? ==> !Judge(acts[m].e).Opens?
  }

  predicate Stopping(s: Shared) {
    && (s.callback.StoreLin? && s.callback.stop ==> !s.gate && s.callback.lin == s.callback.ang == ZERO)
    && (s.callback.StoreAng? && s.callback.stop ==> !s.gate && s.lin == ZERO && s.callback.ang == ZERO)
  }

  lemma {:induction false} StopsAreZero(acts: seq<Action>)
    requires Legal(acts)
    ensures Stopping(After(acts))
    decreases |acts|
  {
    if acts != [] {
      StopsAreZero(acts[..|acts| - 1]);
    }
  }

  lemma {:induction false} CalmAfterStop(acts: seq<Action>, p: nat, i: nat)
    requires Legal(acts) && p < i <= |acts| && StopCompletes(acts, p) && NoOpening(acts, p + 1, i)
    ensures Legal(acts[..i]) && Calm(After(acts[..i]))
    decreases i
  {
    StepAt(acts, i - 1);
    if i == p + 1 {
      StopsAreZero(acts[..p]);
    } else {
      CalmAfterStop(acts, p, i - 1);
    }
  }

  /** The load at index i is the one that the send at k uses. */
  predicate LoadedFor(acts: seq<Action>, load: Action, i: nat, k: nat) {
    i < k < |acts| && acts[i] == load && forall m :: i < m < k ==> !acts[m].Send?
  }

  /** Every frame has its two loads. */
  lemma {:induction false} EverySendHasLoads(acts: seq<Action>, k: nat)
    requires Legal(acts) && k < |acts|
    ensures Legal(acts[..k])
    ensures After(acts[..k]).readLin.Some? ==> exists i: nat :: LoadedFor(acts, LoadLin, i, k)
    ensures After(acts[..k]).readAng.Some? ==> exists j: nat :: LoadedFor(acts, LoadAng, j, k)
    decreases k
  {
    LegalPrefix(acts, k);
    if k > 0 {
      var p: nat := k - 1;
      StepAt(acts, p);
      EverySendHasLoads(acts, p);
      if acts[p].LoadLin? {
        assert LoadedFor(acts, LoadLin, p, k);
      } else if i: nat :| LoadedFor(acts, LoadLin, i, p) && !acts[p].Send? {
        assert LoadedFor(acts, LoadLin, i, k);
      }
      if acts[p].LoadAng? {
        assert LoadedFor(acts, LoadAng, p, k);
      } else if j: nat :| LoadedFor(acts, LoadAng, j, p) && !acts[p].Send? {
        assert LoadedFor(acts, LoadAng, j, k);
      }
    }
  }

  lemma {:induction false} LoadedValue(acts: seq<Action>, i: nat, k: nat)
    requires Legal(acts) && i < k <= |acts| && forall m :: i < m < k ==> !acts[m].Send?
    ensures Legal(acts[..i]) && Legal(acts[..k])
    ensures acts[i].LoadLin? ==> After(acts[..k]).readLin == Some(After(acts[..i]).lin)
    ensures acts[i].LoadAng? ==> After(acts[..k]).readAng == Some(After(acts[..i]).ang)
    decreases k
  {
    var p: nat := k - 1;
    StepAt(acts, p);
    if p > i {
      LoadedValue(acts, i, p);
    }
  }

  /** A frame whose two loads both follow a completed STOP_EVERYTHING, with no enabling ping before
      the later of them, carries (0, 0), whatever cmd_vels arrive in between. */
  lemma QuietAfterStop(acts: seq<Action>, p: nat, i: nat, j: nat, k: nat)
    requires Legal(acts) && k < |acts| && acts[k].Send?
    requires LoadedFor(acts, LoadLin, i, k) && LoadedFor(acts, LoadAng, j, k)
    requires p < i && p < j && StopCompletes(acts, p)
    requires NoOpening(acts, p + 1, i) && NoOpening(acts, p + 1, j)
    ensures Frame(acts, k) == (ZERO, ZERO)
  {
    LoadedValue(acts, i, k);
    LoadedValue(acts, j, k);
    CalmAfterStop(acts, p, i);
    CalmAfterStop(acts, p, j);
  }

  // ---------------------------------------------------------------- quiet after any closing ping

  /** Past the start of a callback that met a closed gate: zero is stored, or about to be. */
  predicate Settling(s: Shared) {
    && !s.gate
    && match s.callback
       case Idle => s.lin == ZERO && s.ang == ZERO
       case StoreLin(l, a, _) => l == ZERO && a == ZERO
       case StoreAng(a, _) => s.lin == ZERO && a == ZERO
  }

  lemma {:induction false} StaysShut(acts: seq<Action>, c: nat, i: nat)
    requires Legal(acts) && c < i <= |acts|
    requires acts[c].Begin? && Judge(acts[c].e).Closes? && NoOpening(acts, c, i)
    ensures Legal(acts[..i]) && !After(acts[..i]).gate
    decreases i
  {
    StepAt(acts, i - 1);
    if i > c + 1 {
      StaysShut(acts, c, i - 1);
    }
  }

  lemma {:induction false} SettlesAfterWrite(acts: seq<Action>, c: nat, b: nat, i: nat)
    requires Legal(acts) && c <= b < i <= |acts|
    requires acts[c].Begin? && Judge(acts[c].e).Closes? && NoOpening(acts, c, i)
    requires acts[b].Begin? && Writes(acts[b].e)
    ensures Legal(acts[..i]) && Settling(After(acts[..i]))
    decreases i
  {
    StepAt(acts, i - 1);
    if i > b + 1 {
      SettlesAfterWrite(acts, c, b, i - 1);
    } else if c < b {
      StaysShut(acts, c, b);
    }
  }

  lemma {:induction false} CalmAfterWrite(acts: seq<Action>, c: nat, b: nat, p: nat, i: nat)
    requires Legal(acts) && c <= b < p < i <= |acts|
    requires acts[c].Begin? && Judge(acts[c].e).Closes? && NoOpening(acts, c, i)
    requires acts[b].Begin? && Writes(acts[b].e) && acts[p].DoStoreAng?
    ensures Legal(acts[..i]) && Calm(After(acts[..i]))
    decreases i
  {
    StepAt(acts, i - 1);
    if i > p + 1 {
      CalmAfterWrite(acts, c, b, p, i - 1);
    } else {
      SettlesAfterWrite(acts, c, b, p);
    }
  }

  /** Any closing ping, at c, and a callback that writes, begun at b (the ping's own, if it is a
      STOP_EVERYTHING, or a later cmd_vel's) and finished at p: every frame loaded after that, and before
      the next enabling ping, carries (0, 0). */
  lemma QuietAfterClose(acts: seq<Action>, c: nat, b: nat, p: nat, i: nat, j: nat, k: nat)
    requires Legal(acts) && k < |acts| && acts[k].Send?
    requires LoadedFor(acts, LoadLin, i, k) && LoadedFor(acts, LoadAng, j, k)
    requires c <= b < p && p < i && p < j
    requires acts[c].Begin? && Judge(acts[c].e).Closes? && NoOpening(acts, c, i) && NoOpening(acts, c, j)
    requires acts[b].Begin? && Writes(acts[b].e) && acts[p].DoStoreAng?
    ensures Frame(acts, k) == (ZERO, ZERO)
  {
    LoadedValue(acts, i, k);
    LoadedValue(acts, j, k);
    CalmAfterWrite(acts, c, b, p, i);
    CalmAfterWrite(acts, c, b, p, j);
  }

  // ---------------------------------------------------------------- when a frame is one command's pair

  /** The pairs that callbacks set out to store, in order, after the initial pair of zeros. */
  function Issued(acts: seq<Action>): (ps: seq<(Word, Word)>)
    requires Legal(acts)
    ensures |ps| >= 1
    decreases |acts|
  {
    if acts == [] then [(ZERO, ZERO)]
    else
      var before := acts[..|acts| - 1];
      var s := After(acts);
      Issued(before) + if After(before).callback.Idle? && s.callback.StoreLin?
                       then [(s.callback.lin, s.callback.ang)] else []
  }

  /** How many lin stores, and how many ang stores, the run has made. */
  function LinStores(acts: seq<Action>): nat {
    if acts == [] then 0
    else LinStores(acts[..|acts| - 1]) + if acts[|acts| - 1].DoStoreLin? then 1 else 0
  }

  function AngStores(acts: seq<Action>): nat {
    if acts == [] then 0
    else AngStores(acts[..|acts| - 1]) + if acts[|acts| - 1].DoStoreAng? then 1 else 0
  }

  /** Memory in terms of the issued pairs: each store brings in the next one's component. */
  ghost predicate Tracked(s: Shared, ps: seq<(Word, Word)>, lins: nat, angs: nat) {
    && angs <= lins < |ps| && s.lin == ps[lins].0 && s.ang == ps[angs].1
    && match s.callback
       case Idle => lins == angs == |ps| - 1
       case StoreLin(l, a, _) => lins == angs == |ps| - 2 && ps[|ps| - 1] == (l, a)
       case StoreAng(a, _) => lins == |ps| - 1 && angs == |ps| - 2 && ps[|ps| - 1].1 == a
  }

  lemma {:induction false} MemoryIsIssued(acts: seq<Action>)
    requires Legal(acts)
    ensures Tracked(After(acts), Issued(acts), LinStores(acts), AngStores(acts))
    decreases |acts|
  {
    if acts != [] {
      MemoryIsIssued(acts[..|acts| - 1]);
    }
  }

  lemma {:induction false} IssuedGrows(acts: seq<Action>, i: nat)
    requires Legal(acts) && i <= |acts|
    ensures Legal(acts[..i]) && Issued(acts[..i]) <= Issued(acts)
    ensures LinStores(acts[..i]) <= LinStores(acts) && AngStores(acts[..i]) <= AngStores(acts)
    decreases |acts|
  {
    if i == |acts| {
      assert acts[..i] == acts;
    } else {
      IssuedGrows(acts[..|acts| - 1], i);
      assert acts[..|acts| - 1][..i] == acts[..i];
    }
  }

  /** Where a frame's words come from: the lin of the pair of the last lin store before its lin load, and
      the ang of the pair of the last ang store before its ang load. */
  lemma FrameSources(acts: seq<Action>, i: nat, j: nat, k: nat)
    requires Legal(acts) && k < |acts| && acts[k].Send?
    requires LoadedFor(acts, LoadLin, i, k) && LoadedFor(acts, LoadAng, j, k)
    ensures var n, m := LinStores(acts[..i]), AngStores(acts[..j]);
            && n < |Issued(acts)| && m < |Issued(acts)|
            && Frame(acts, k) == (Issued(acts)[n].0, Issued(acts)[m].1)
  {
    LoadedValue(acts, i, k);
    LoadedValue(acts, j, k);
    IssuedGrows(acts, i);
    IssuedGrows(acts, j);
    MemoryIsIssued(acts[..i]);
    MemoryIsIssued(acts[..j]);
  }

  predicate OneOf(f: (Word, Word), ps: seq<(Word, Word)>) {
    exists q :: 0 <= q < |ps| && ps[q] == f
  }

  /** Item n is the only one with its lin, and the only one with its ang. */
  predicate OnlyLin(ps: seq<(Word, Word)>, n: nat)
    requires n < |ps|
  {
    forall q :: 0 <= q < |ps| && ps[q].0 == ps[n].0 ==> q == n
  }

  predicate OnlyAng(ps: seq<(Word, Word)>, m: nat)
    requires m < |ps|
  {
    forall q :: 0 <= q < |ps| && ps[q].1 == ps[m].1 ==> q == m
  }

  /** When a frame is one command's pair. It is if as many lin stores precede its lin load as ang stores
      precede its ang load. If only one pair was issued with its lin, it is exactly when that pair's ang is
      the loaded one, whatever the counts; likewise for the ang. Where the words of different commands
      differ, it is exactly when the counts agree. */
  lemma UntornIff(acts: seq<Action>, i: nat, j: nat, k: nat)
    requires Legal(acts) && k < |acts| && acts[k].Send?
    requires LoadedFor(acts, LoadLin, i, k) && LoadedFor(acts, LoadAng, j, k)
    ensures LinStores(acts[..i]) < |Issued(acts)| && AngStores(acts[..j]) < |Issued(acts)|
    ensures LinStores(acts[..i]) == AngStores(acts[..j]) ==> OneOf(Frame(acts, k), Issued(acts))
    ensures var ps, n, m := Issued(acts), LinStores(acts[..i]), AngStores(acts[..j]);
            && (OnlyLin(ps, n) ==> (OneOf(Frame(acts, k), ps) <==> ps[n].1 == ps[m].1))
            && (OnlyAng(ps, m) ==> (OneOf(Frame(acts, k), ps) <==> ps[n].0 == ps[m].0))
    ensures (forall q, r :: 0 <= q < r < |Issued(acts)| ==>
               Issued(acts)[q].0 != Issued(acts)[r].0 && Issued(acts)[q].1 != Issued(acts)[r].1)
            ==> (OneOf(Frame(acts, k), Issued(acts)) <==> LinStores(acts[..i]) == AngStores(acts[..j]))
  {
    FrameSources(acts, i, j, k);
    MixedPair(Issued(acts), LinStores(acts[..i]), AngStores(acts[..j]));
  }

  lemma MixedPair(ps: seq<(Word, Word)>, n: nat, m: nat)
    requires n < |ps| && m < |ps|
    ensures n == m ==> OneOf((ps[n].0, ps[m].1), ps)
    ensures OnlyLin(ps, n) ==> (OneOf((ps[n].0, ps[m].1), ps) <==> ps[n].1 == ps[m].1)
    ensures OnlyAng(ps, m) ==> (OneOf((ps[n].0, ps[m].1), ps) <==> ps[n].0 == ps[m].0)
    ensures (forall q, r :: 0 <= q < r < |ps| ==> ps[q].0 != ps[r].0 && ps[q].1 != ps[r].1)
            ==> (OneOf((ps[n].0, ps[m].1), ps) <==> n == m)
  {
    var f := (ps[n].0, ps[m].1);
    assert ps[n].1 == ps[m].1 ==> ps[n] == f;
    assert ps[n].0 == ps[m].0 ==> ps[m] == f;
    if (forall q, r :: 0 <= q < r < |ps| ==> ps[q].0 != ps[r].0 && ps[q].1 != ps[r].1) {
      if q :| 0 <= q < |ps| && ps[q] == f {
        assert q == n && q == m;
      }
    }
  }

  predicate NoStore(acts: seq<Action>, lo: nat, hi: nat)
    requires hi <= |acts|
  {
    forall m :: lo <= m < hi ==> !acts[m].DoStoreLin? && !acts[m].DoStoreAng?
  }

  lemma {:induction false} NoStoreNoChange(acts: seq<Action>, lo: nat, hi: nat)
    requires Legal(acts) && lo <= hi <= |acts| && NoStore(acts, lo, hi)
    ensures Legal(acts[..lo]) && Legal(acts[..hi])
    ensures After(acts[..lo]).lin == After(acts[..hi]).lin && After(acts[..lo]).ang == After(acts[..hi]).ang
    ensures LinStores(acts[..lo]) == LinStores(acts[..hi]) && AngStores(acts[..lo]) == AngStores(acts[..hi])
    decreases hi
  {
    LegalPrefix(acts, lo);
    if lo < hi {
      StepAt(acts, hi - 1);
      NoStoreNoChange(acts, lo, hi - 1);
      var p := acts[..hi];
      assert p[..|p| - 1] == acts[..hi - 1] && p[|p| - 1] == acts[hi - 1];
    }
  }

  /** With no store between the two loads, and the first load not between a callback's two stores, a frame
      is the pair in memory at the first load: an issued pair, and the atomic kernel's own velocities when
      no callback is in progress. */
  lemma UntornFrame(acts: seq<Action>, i: nat, j: nat, k: nat)
    requires Legal(acts) && k < |acts| && acts[k].Send?
    requires LoadedFor(acts, LoadLin, i, k) && LoadedFor(acts, LoadAng, j, k)
    requires NoStore(acts, i, j) && NoStore(acts, j, i)
    ensures var lo := if i < j then i else j;
            && Legal(acts[..lo])
            && Frame(acts, k) == (After(acts[..lo]).lin, After(acts[..lo]).ang)
            && (!After(acts[..lo]).callback.StoreAng? ==>
                  LinStores(acts[..i]) == AngStores(acts[..j]) && OneOf(Frame(acts, k), Issued(acts)))
            && (After(acts[..lo]).callback.Idle? ==>
                  var r := Run(Delivered(acts[..lo])); Frame(acts, k) == (r.lin, r.ang))
  {
    var lo, hi := if i < j then i else j, if i < j then j else i;
    LoadedValue(acts, i, k);
    LoadedValue(acts, j, k);
    NoStoreNoChange(acts, lo, hi);
    MemoryIsIssued(acts[..lo]);
    RefinesKernel(acts[..lo]);
    UntornIff(acts, i, j, k);
  }

  /** A frame whose words come from different commands was loaded in one of two ways: the component loaded
      second was stored between the loads, or the first load fell between a callback's two stores. */
  lemma TornOnlyIf(acts: seq<Action>, i: nat, j: nat, k: nat)
    requires Legal(acts) && k < |acts| && acts[k].Send?
    requires LoadedFor(acts, LoadLin, i, k) && LoadedFor(acts, LoadAng, j, k)
    requires LinStores(acts[..i]) != AngStores(acts[..j])
    ensures Legal(acts[..i]) && Legal(acts[..j])
    ensures i < j ==> AngStores(acts[..j]) > AngStores(acts[..i]) || After(acts[..i]).callback.StoreAng?
    ensures j < i ==> LinStores(acts[..i]) > LinStores(acts[..j]) || After(acts[..j]).callback.StoreAng?
  {
    TrackedAt(acts, i);
    TrackedAt(acts, j);
    if i < j {
      StoresGrow(acts, i, j);
    } else {
      StoresGrow(acts, j, i);
    }
  }

  lemma TrackedAt(acts: seq<Action>, i: nat)
    requires Legal(acts) && i <= |acts|
    ensures Legal(acts[..i])
    ensures var s := After(acts[..i]);
            && AngStores(acts[..i]) <= LinStores(acts[..i])
            && (!s.callback.StoreAng? ==> LinStores(acts[..i]) == AngStores(acts[..i]))
  {
    LegalPrefix(acts, i);
    MemoryIsIssued(acts[..i]);
  }

  lemma StoresGrow(acts: seq<Action>, i: nat, j: nat)
    requires Legal(acts) && i <= j <= |acts|
    ensures LinStores(acts[..i]) <= LinStores(acts[..j]) && AngStores(acts[..i]) <= AngStores(acts[..j])
  {
    LegalPrefix(acts, j);
    IssuedGrows(acts[..j], i);
    assert acts[..j][..i] == acts[..i];
  }

  /** Frames can be torn: this one mixes two different cmd_vels. */
  lemma TornFrame(p: Event, a: Word, b: Word)
    requires Judge(p).Opens? && a != b
    ensures var acts := [Begin(p), Begin(Drive(a, a)), DoStoreLin, DoStoreAng, LoadLin,
                         Begin(Drive(b, b)), DoStoreLin, DoStoreAng, LoadAng, Send];
            Legal(acts) && Frame(acts, 9) == (a, b)
  {
    var acts := [Begin(p), Begin(Drive(a, a)), DoStoreLin, DoStoreAng, LoadLin,
                 Begin(Drive(b, b)), DoStoreLin, DoStoreAng, LoadAng, Send];
    var a2 := Grow(Grow([], Begin(p)), Begin(Drive(a, a)));
    var a5 := Grow(Grow(Grow(a2, DoStoreLin), DoStoreAng), LoadLin);
    var a8 := Grow(Grow(Grow(a5, Begin(Drive(b, b))), DoStoreLin), DoStoreAng);
    var a9 := Grow(a8, LoadAng);
    assert Grow(a9, Send) == acts && acts[..9] == a9;
  }

  function Grow(acts: seq<Action>, a: Action): (r: seq<Action>)
    requires Legal(acts) && Enabled(After(acts), a)
    ensures r == acts + [a] && Legal(r) && After(r) == Do(After(acts), a)
  {
    Extend(acts, a);
    acts + [a]
  }

  lemma Extend(acts: seq<Action>, a: Action)
    requires Legal(acts) && Enabled(After(acts), a)
    ensures Legal(acts + [a]) && After(acts + [a]) == Do(After(acts), a)
  {
    assert (acts + [a])[..|acts|] == acts;
  }
}
