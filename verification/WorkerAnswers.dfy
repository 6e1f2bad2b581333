/** What src/control/ZMQControlClient.cpp answers to every call, read off the calls before it alone. */
module WorkerAnswers {
  import opened Bytes
  import opened Workers

  // ---------------------------------------------------------------- the history of calls

  /** The addresses at which subscriptions were taken: a call is taken if its topic is none of them yet. */
  function Addresses(ops: seq<Op>): set<string> {
    if ops == [] then {}
    else
      var before, op := Addresses(ops[..|ops| - 1]), ops[|ops| - 1];
      if op.Subscribe? && op.topic !in before then before + {op.address} else before
  }

  /** The call, made after these calls, names the key: a start of it, or a subscription taken at it. */
  predicate Names(before: seq<Op>, op: Op, kind: Kind, key: string) {
    || op == Start(kind, key)
    || (kind == Subscribers && op.Subscribe? && op.address == key && op.topic !in Addresses(before))
  }

  predicate Ends(op: Op, kind: Kind, key: string) {
    op == Cancel(kind, key) || op == Quit
  }

  predicate WasNamed(ops: seq<Op>, kind: Kind, key: string) {
    exists i :: 0 <= i < |ops| && Names(ops[..i], ops[i], kind, key)
  }

  /** A cancel of it, or a quit, came after it was named. */
  predicate WasEnded(ops: seq<Op>, kind: Kind, key: string) {
    exists j :: 0 <= j < |ops| && Ends(ops[j], kind, key) && WasNamed(ops[..j], kind, key)
  }

  lemma NamedSnoc(ops: seq<Op>, op: Op, kind: Kind, key: string)
    ensures WasNamed(ops + [op], kind, key) <==> WasNamed(ops, kind, key) || Names(ops, op, kind, key)
  {
    var all := ops + [op];
    assert all[..|ops|] == ops;
    forall i | 0 <= i < |ops|
      ensures Names(all[..i], all[i], kind, key) <==> Names(ops[..i], ops[i], kind, key)
    {
      assert all[..i] == ops[..i];
    }
    if Names(ops, op, kind, key) {
      var n := |ops|;
      assert Names(all[..n], all[n], kind, key);
    }
  }

  lemma EndedSnoc(ops: seq<Op>, op: Op, kind: Kind, key: string)
    ensures WasEnded(ops + [op], kind, key)
            <==> WasEnded(ops, kind, key) || (Ends(op, kind, key) && WasNamed(ops, kind, key))
  {
    var all := ops + [op];
    assert all[..|ops|] == ops;
    forall j | 0 <= j < |ops|
      ensures all[..j] == ops[..j] && all[j] == ops[j]
    {
    }
    if Ends(op, kind, key) && WasNamed(ops, kind, key) {
      var n := |ops|;
      assert Ends(all[n], kind, key) && WasNamed(all[..n], kind, key);
    }
  }

  lemma AddressesSnoc(ops: seq<Op>, op: Op)
    ensures Addresses(ops + [op]) == Addresses(ops)
                                     + if op.Subscribe? && op.topic !in Addresses(ops) then {op.address} else {}
  {
    assert (ops + [op])[..|ops|] == ops;
  }

  lemma {:induction false} NamedPrefix(ops: seq<Op>, j: nat, kind: Kind, key: string)
    requires j <= |ops| && WasNamed(ops[..j], kind, key)
    ensures WasNamed(ops, kind, key)
  {
    var p := ops[..j];
    var i :| 0 <= i < |p| && Names(p[..i], p[i], kind, key);
    assert p[..i] == ops[..i] && p[i] == ops[i];
  }

  // ---------------------------------------------------------------- the registries tell the history

  /** The record under a key in terms of the calls. */
  ghost predicate Tells(ops: seq<Op>, r: Registry, kind: Kind, key: string) {
    && (key in r <==> WasNamed(ops, kind, key))
    && (WasEnded(ops, kind, key) ==> WasNamed(ops, kind, key))
    && (key in r ==> if WasEnded(ops, kind, key) then Stopped(r[key]) else Running(r[key]))
  }

  ghost predicate Known(ops: seq<Op>, s: Space) {
    && s.subscribers.Keys == Addresses(ops)
    && forall kind: Kind, key: string :: Tells(ops, s.Of(kind), kind, key)
  }

  lemma StepTells(ops: seq<Op>, s: Space, op: Op, kind: Kind, key: string)
    requires Known(ops, s) && ResultOf(s, op).Done? && !(op.Start? && op.kind.Subscribers?)
    ensures Tells(ops + [op], Next(s, op).Of(kind), kind, key)
  {
    NamedSnoc(ops, op, kind, key);
    EndedSnoc(ops, op, kind, key);
    assert Tells(ops, s.Of(kind), kind, key);
    if op.Quit? {
      assert AllRunning(s.Of(kind)) && Next(s, op).Of(kind) == AllStopped(s.Of(kind));
    }
  }

  lemma StepKnown(ops: seq<Op>, s: Space, op: Op)
    requires Known(ops, s) && ResultOf(s, op).Done? && !(op.Start? && op.kind.Subscribers?)
    ensures Known(ops + [op], Next(s, op))
  {
    AddressesSnoc(ops, op);
    forall kind: Kind, key: string
      ensures Tells(ops + [op], Next(s, op).Of(kind), kind, key)
    {
      StepTells(ops, s, op, kind, key);
    }
    assert Next(s, op).Of(Subscribers) == Next(s, op).subscribers;
  }

  lemma {:induction false} RunKnown(before: seq<Op>, s: Space, ops: seq<Op>)
    requires Known(before, s) && Accepted(s, ops)
    ensures Known(before + ops, Run(s, ops))
    decreases |ops|
  {
    if ops == [] {
      assert before + ops == before;
    } else {
      StepKnown(before, s, ops[0]);
      RunKnown(before + [ops[0]], Next(s, ops[0]), ops[1..]);
      assert before + [ops[0]] + ops[1..] == before + ops;
    }
  }

  lemma EmptyKnown()
    ensures Known([], EMPTY)
  {
    forall kind: Kind, key: string
      ensures Tells([], EMPTY.Of(kind), kind, key)
    {
    }
  }

  // ---------------------------------------------------------------- the answers

  /** serve and bind_server, request, and publish: after any run, a call answers true exactly if no call of
      the run started that key of that kind, cancelled or not, and false otherwise; it never throws. */
  lemma StartAnswers(ops: seq<Op>, kind: Kind, key: string)
    requires Accepted(EMPTY, ops) && kind != Subscribers
    ensures ResultOf(Run(EMPTY, ops), Start(kind, key)) == if Start(kind, key) in ops then Done(false) else Done(true)
  {
    EmptyKnown();
    RunKnown([], EMPTY, ops);
    assert [] + ops == ops;
    assert Tells(ops, Run(EMPTY, ops).Of(kind), kind, key);
    if Start(kind, key) in ops {
      var i :| 0 <= i < |ops| && ops[i] == Start(kind, key);
      assert Names(ops[..i], ops[i], kind, key);
    }
  }

  /** The four cancels: false exactly if no earlier call named the key, a throw exactly if it was cancelled
      or quit after it was named, and true otherwise. */
  lemma CancelAnswers(ops: seq<Op>, kind: Kind, key: string)
    requires Accepted(EMPTY, ops)
    ensures var r := ResultOf(Run(EMPTY, ops), Cancel(kind, key));
            && (r == Done(false) <==> !WasNamed(ops, kind, key))
            && (r == Throws <==> WasEnded(ops, kind, key))
            && (r == Done(true) <==> WasNamed(ops, kind, key) && !WasEnded(ops, kind, key))
    ensures kind != Subscribers ==> (WasNamed(ops, kind, key) <==> Start(kind, key) in ops)
  {
    EmptyKnown();
    RunKnown([], EMPTY, ops);
    assert [] + ops == ops;
    assert Tells(ops, Run(EMPTY, ops).Of(kind), kind, key);
    if kind != Subscribers {
      StartAnswers(ops, kind, key);
    }
  }

  /** subscribe: false exactly if the topic is an address taken before, a throw exactly if it is not and the
      address is, and true otherwise. */
  lemma SubscribeAnswers(ops: seq<Op>, address: string, topic: string)
    requires Accepted(EMPTY, ops)
    ensures var r := ResultOf(Run(EMPTY, ops), Subscribe(address, topic));
            && (r == Done(false) <==> WasNamed(ops, Subscribers, topic))
            && (r == Throws <==> !WasNamed(ops, Subscribers, topic) && WasNamed(ops, Subscribers, address))
            && (r == Done(true) <==> !WasNamed(ops, Subscribers, topic) && !WasNamed(ops, Subscribers, address))
  {
    EmptyKnown();
    RunKnown([], EMPTY, ops);
    assert [] + ops == ops;
    var r := Run(EMPTY, ops).Of(Subscribers);
    assert Tells(ops, r, Subscribers, topic) && Tells(ops, r, Subscribers, address);
  }

  /** quit: a throw exactly if some key was cancelled or quit after it was named, and true otherwise. */
  lemma QuitAnswers(ops: seq<Op>)
    requires Accepted(EMPTY, ops)
    ensures ResultOf(Run(EMPTY, ops), Quit)
            == if exists kind: Kind, key: string :: WasEnded(ops, kind, key) then Throws else Done(true)
  {
    EmptyKnown();
    RunKnown([], EMPTY, ops);
    assert [] + ops == ops;
    var s := Run(EMPTY, ops);
    if kind: Kind, key: string :| WasEnded(ops, kind, key) {
      assert Tells(ops, s.Of(kind), kind, key);
      assert !AllRunning(s.Of(kind));
    } else {
      forall kind: Kind
        ensures AllRunning(s.Of(kind))
      {
        forall key | key in s.Of(kind)
          ensures Running(s.Of(kind)[key])
        {
          assert Tells(ops, s.Of(kind), kind, key);
        }
      }
    }
  }

  /** The workers themselves: there is one for every key that was named, none is ever lost or started again,
      and it was signalled once and joined once if it was ended, and neither otherwise. */
  lemma WorkersAre(ops: seq<Op>, kind: Kind, key: string)
    requires Accepted(EMPTY, ops)
    ensures var registry := Run(EMPTY, ops).Of(kind);
            && (key in registry <==> WasNamed(ops, kind, key))
            && (key in registry ==>
                  var times := if WasEnded(ops, kind, key) then 1 else 0;
                  registry[key].signals == times && registry[key].joins == times && registry[key].futureTaken)
  {
    EmptyKnown();
    RunKnown([], EMPTY, ops);
    assert [] + ops == ops;
    assert Tells(ops, Run(EMPTY, ops).Of(kind), kind, key);
  }
}
