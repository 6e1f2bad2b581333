/** The worker registries of src/control/ZMQControlClient.cpp: who is signalled and joined, and when a
    second registration or a second signal makes the C++ code throw. */
module Workers {
  import opened Bytes

  // ---------------------------------------------------------------- one record of a registry

  /** socket_thread_space: whether it owns a socket that was not handed to a thread, whether its promise's
      future was taken, how often the promise was set and how often the thread was joined. */
  datatype Worker = Worker(socket: bool, futureTaken: bool, signals: nat, joins: nat)

  /** promise::get_future; None is the std::future_error of a second call. */
  function GetFuture(w: Worker): Option<Worker> {
    if w.futureTaken then None else Some(w.(futureTaken := true))
  }

  /** promise::set_value; None is the std::future_error of a second call. */
  function SetValue(w: Worker): Option<Worker> {
    if w.signals > 0 then None else Some(w.(signals := w.signals + 1))
  }

  /** thread::join; None is the std::system_error of a thread that is not joinable. */
  function Join(w: Worker): Option<Worker> {
    if w.joins > 0 then None else Some(w.(joins := w.joins + 1))
  }

  const STARTED := Worker(false, true, 0, 0)

  predicate Running(w: Worker) {
    w.futureTaken && w.signals == 0 && w.joins == 0
  }

  predicate Stopped(w: Worker) {
    w.futureTaken && w.signals == 1 && w.joins == 1
  }

  function StoppedOnce(w: Worker): Worker {
    w.(signals := 1, joins := 1)
  }

  // ---------------------------------------------------------------- the four registries

  type Registry = map<string, Worker>

  datatype Result = Done(accepted: bool) | Throws

  datatype Kind = Subscribers | Servers | Clients | Publishers

  datatype Space = Space(subscribers: Registry, servers: Registry, clients: Registry, publishers: Registry) {
    function Of(k: Kind): Registry {
      match k
      case Subscribers => subscribers
      case Servers => servers
      case Clients => clients
      case Publishers => publishers
    }

    function With(k: Kind, r: Registry): (s: Space)
      ensures s.Of(k) == r && forall j :: j != k ==> s.Of(j) == Of(j)
    {
      match k
      case Subscribers => this.(subscribers := r)
      case Servers => this.(servers := r)
      case Clients => this.(clients := r)
      case Publishers => this.(publishers := r)
    }
  }

  const EMPTY := Space(map[], map[], map[], map[])

  /** What holds of every registry between calls: each record is of a running or of a stopped thread. */
  predicate SoundRegistry(r: Registry) {
    forall k :: k in r ==> Running(r[k]) || Stopped(r[k])
  }

  predicate Sound(s: Space) {
    forall k: Kind :: SoundRegistry(s.Of(k))
  }

  predicate AllRunning(r: Registry) {
    forall k :: k in r ==> Running(r[k])
  }

  predicate SpaceRunning(s: Space) {
    forall k: Kind :: AllRunning(s.Of(k))
  }

  function AllStopped(r: Registry): (s: Registry)
    ensures s.Keys == r.Keys
  {
    map k | k in r :: StoppedOnce(r[k])
  }

  function SpaceStopped(s: Space): Space {
    Space(AllStopped(s.subscribers), AllStopped(s.servers), AllStopped(s.clients), AllStopped(s.publishers))
  }

  // ---------------------------------------------------------------- what the calls amount to

  /** Start is serve and bind_server, request, or publish, by the kind of its registry. */
  datatype Op = Start(kind: Kind, key: string) | Subscribe(address: string, topic: string)
              | Cancel(kind: Kind, key: string) | Quit

  function ResultOf(s: Space, op: Op): Result {
    match op
    case Start(kind, key) => Done(key !in s.Of(kind))
    case Subscribe(address, topic) =>
      if topic in s.subscribers then Done(false)
      else if address in s.subscribers then Throws
      else Done(true)
    case Cancel(kind, key) =>
      if key !in s.Of(kind) then Done(false)
      else if Running(s.Of(kind)[key]) then Done(true)
      else Throws
    case Quit => if SpaceRunning(s) then Done(true) else Throws
  }

  /** What a call leaves behind when it does not throw. */
  function Next(s: Space, op: Op): Space
    requires ResultOf(s, op).Done?
  {
    match op
    case Start(kind, key) => if key in s.Of(kind) then s else s.With(kind, s.Of(kind)[key := STARTED])
    case Subscribe(address, topic) =>
      if topic in s.subscribers then s else s.(subscribers := s.subscribers[address := STARTED])
    case Cancel(kind, key) =>
      if key !in s.Of(kind) then s else s.With(kind, s.Of(kind)[key := StoppedOnce(s.Of(kind)[key])])
    case Quit => SpaceStopped(s)
  }

  /** A loop of quit that threw part-way: each record is as it was, or was running and is now stopped. */
  predicate PartlyStopped(r: Registry, r': Registry) {
    r'.Keys == r.Keys && forall k :: k in r ==> r'[k] == r[k] || (Running(r[k]) && r'[k] == StoppedOnce(r[k]))
  }

  /** A quit that threw: the registries before the one with an already stopped thread are all stopped, that
      one partly, the ones after it not at all. */
  predicate QuitThrew(s: Space, t: Space) {
    if !AllRunning(s.subscribers) then
      PartlyStopped(s.subscribers, t.subscribers) && t == s.(subscribers := t.subscribers)
    else if !AllRunning(s.servers) then
      && t.subscribers == AllStopped(s.subscribers) && PartlyStopped(s.servers, t.servers)
      && t.publishers == s.publishers && t.clients == s.clients
    else if !AllRunning(s.publishers) then
      && t.subscribers == AllStopped(s.subscribers) && t.servers == AllStopped(s.servers)
      && PartlyStopped(s.publishers, t.publishers) && t.clients == s.clients
    else
      && t.subscribers == AllStopped(s.subscribers) && t.servers == AllStopped(s.servers)
      && t.publishers == AllStopped(s.publishers) && PartlyStopped(s.clients, t.clients)
  }

  // ---------------------------------------------------------------- the C++ code

  class ThreadSpace {
    var space: Space

    constructor ()
      ensures space == EMPTY && Sound(space)
    {
      space := EMPTY;
    }

    /** create_socket: `emplace` leaves a record that is already there alone, then the record found under
        the key gets a new socket and is handed out. */
    method CreateSocket(kind: Kind, key: string) returns (val: Worker)
      modifies this
      ensures val == if key in old(space).Of(kind) then old(space).Of(kind)[key].(socket := true)
                     else Worker(true, false, 0, 0)
      ensures space == old(space).With(kind, old(space).Of(kind)[key := val])
    {
      var registry := space.Of(kind);
      if key !in registry {
        registry := registry[key := Worker(false, false, 0, 0)];
      }
      registry := registry[key := registry[key].(socket := true)];
      space := space.With(kind, registry);
      val := registry[key];
    }

    /** The part that every kind of start shares: create_socket, get_future, hand the socket over. */
    method Launch(kind: Kind, key: string) returns (r: Result)
      requires Sound(space)
      modifies this
      ensures Sound(space)
      ensures r == if key in old(space).Of(kind) then Throws else Done(true)
      ensures space == old(space).With(kind, old(space).Of(kind)[key :=
                         if r.Throws? then old(space).Of(kind)[key].(socket := true) else STARTED])
    {
      ghost var was := space;
      var val := CreateSocket(kind, key);
      assert forall k: Kind :: SoundRegistry(was.Of(k));
      match GetFuture(val) {
        case None =>
          assert Running(val) || Stopped(val);
          r := Throws;
        case Some(taken) =>
          assert key !in was.Of(kind);
          space := space.With(kind, space.Of(kind)[key := taken.(socket := false)]);
          r := Done(true);
      }
    }

    /** publish, request, serve and bind_server: look the key up that the worker is stored under. */
    method StartWorker(kind: Kind, key: string) returns (r: Result)
      requires Sound(space)
      modifies this
      ensures Sound(space)
      ensures r == ResultOf(old(space), Start(kind, key)) && space == Next(old(space), Start(kind, key))
    {
      if key in space.Of(kind) {
        return Done(false);
      }
      r := Launch(kind, key);
    }

    /** subscribe: look the topic up, but store under the address. A second subscription on an address gets
        the first one's record back, whose future is taken; it throws there, and leaves the record with a
        socket that no thread owns. */
    method SubscribeTo(address: string, topic: string) returns (r: Result)
      requires Sound(space)
      modifies this
      ensures Sound(space)
      ensures r == ResultOf(old(space), Subscribe(address, topic))
      ensures r.Done? ==> space == Next(old(space), Subscribe(address, topic))
      ensures r.Throws? ==>
                && address in old(space).subscribers && topic !in old(space).subscribers
                && space == old(space).(subscribers := old(space).subscribers[address :=
                              old(space).subscribers[address].(socket := true)])
    {
      if topic in space.subscribers {
        return Done(false);
      }
      r := Launch(Subscribers, address);
    }

    /** cancel_subscription, terminate_server, cancel_periodic_request, cancel_periodic_publisher: signal,
        join, and leave the record in the map. */
    method CancelWorker(kind: Kind, key: string) returns (r: Result)
      requires Sound(space)
      modifies this
      ensures Sound(space)
      ensures r == ResultOf(old(space), Cancel(kind, key))
      ensures r.Done? ==> space == Next(old(space), Cancel(kind, key))
      ensures r.Throws? ==> space == old(space)
    {
      ghost var was := space;
      var registry := space.Of(kind);
      if key !in registry {
        return Done(false);
      }
      assert SoundRegistry(was.Of(kind));
      assert forall k: Kind :: SoundRegistry(was.Of(k));
      match SetValue(registry[key]) {
        case None => return Throws;
        case Some(signalled) =>
          match Join(signalled) {
            case None => assert false;
            case Some(joined) => space := space.With(kind, registry[key := joined]);
          }
      }
      r := Done(true);
    }

    /** One of quit's four loops; the order of an unordered_map is any order. */
    method CancelAll(kind: Kind) returns (r: Result)
      requires Sound(space)
      modifies this
      ensures Sound(space)
      ensures r == if AllRunning(old(space).Of(kind)) then Done(true) else Throws
      ensures space == old(space).With(kind, space.Of(kind))
      ensures r.Done? ==> space.Of(kind) == AllStopped(old(space).Of(kind))
      ensures PartlyStopped(old(space).Of(kind), space.Of(kind))
    {
      ghost var was := space.Of(kind);
      ghost var all := space;
      var left := space.Of(kind).Keys;
      while left != {}
        invariant left <= was.Keys && space.Of(kind).Keys == was.Keys && Sound(space)
        invariant forall k :: k in was && k in left ==> space.Of(kind)[k] == was[k]
        invariant forall k :: k in was && k !in left ==>
                    Running(was[k]) && space.Of(kind)[k] == StoppedOnce(was[k])
        invariant space == all.With(kind, space.Of(kind))
        decreases left
      {
        var k :| k in left;
        r := CancelWorker(kind, k);
        if r.Throws? {
          return;
        }
        left := left - {k};
      }
      assert space.Of(kind) == AllStopped(was);
      r := Done(true);
    }

    /** quit */
    method QuitAll() returns (r: Result)
      requires Sound(space)
      modifies this
      ensures Sound(space)
      ensures r == ResultOf(old(space), Quit)
      ensures r.Done? ==> space == Next(old(space), Quit)
      ensures r.Throws? ==> QuitThrew(old(space), space)
      ensures r.Throws? && !AllRunning(old(space).subscribers) ==> space.servers == old(space).servers
      ensures r.Throws? && !(AllRunning(old(space).subscribers) && AllRunning(old(space).servers)) ==>
                space.publishers == old(space).publishers
      ensures r.Throws? && !(&& AllRunning(old(space).subscribers) && AllRunning(old(space).servers)
                             && AllRunning(old(space).publishers)) ==>
                space.clients == old(space).clients
    {
      r := CancelAll(Subscribers);
      if r.Throws? {
        return;
      }
      r := CancelAll(Servers);
      if r.Throws? {
        return;
      }
      r := CancelAll(Publishers);
      if r.Throws? {
        return;
      }
      r := CancelAll(Clients);
    }
  }

  // ---------------------------------------------------------------- whole runs

  /** No call of the run throws; subscribers come from subscribe only. */
  predicate Accepted(s: Space, ops: seq<Op>)
    decreases |ops|
  {
    ops == [] ||
    (&& !(ops[0].Start? && ops[0].kind.Subscribers?)
     && ResultOf(s, ops[0]).Done? && Accepted(Next(s, ops[0]), ops[1..]))
  }

  function Run(s: Space, ops: seq<Op>): Space
    requires Accepted(s, ops)
    decreases |ops|
  {
    if ops == [] then s else Run(Next(s, ops[0]), ops[1..])
  }

  lemma NextSound(s: Space, op: Op)
    requires Sound(s) && ResultOf(s, op).Done?
    ensures Sound(Next(s, op))
  {
    forall k: Kind
      ensures SoundRegistry(Next(s, op).Of(k))
    {
      assert SoundRegistry(s.Of(k));
      if op.Quit? {
        assert AllRunning(s.Of(k));
        assert Next(s, op).Of(k) == AllStopped(s.Of(k));
      }
    }
  }

  /** The methods' precondition holds all along a run. */
  lemma {:induction false} RunSound(s: Space, ops: seq<Op>)
    requires Sound(s) && Accepted(s, ops)
    ensures Sound(Run(s, ops))
    decreases |ops|
  {
    if ops != [] {
      NextSound(s, ops[0]);
      RunSound(Next(s, ops[0]), ops[1..]);
    }
  }

  /** The key that a call leaves in the registry: a start's own, whether it was there before or not, or the
      address of a subscription whose topic is no subscribed address. */
  function RegisteredBy(s: Space, op: Op, kind: Kind): set<string> {
    if op.Start? && op.kind == kind then {op.key}
    else if op.Subscribe? && kind.Subscribers? && op.topic !in s.subscribers then {op.address}
    else {}
  }

  function Registered(s: Space, ops: seq<Op>, kind: Kind): set<string>
    requires Accepted(s, ops)
    decreases |ops|
  {
    if ops == [] then {}
    else RegisteredBy(s, ops[0], kind) + Registered(Next(s, ops[0]), ops[1..], kind)
  }

  /** The topics that accepted subscriptions asked for. */
  function Topics(s: Space, ops: seq<Op>): set<string>
    requires Accepted(s, ops)
    decreases |ops|
  {
    if ops == [] then {}
    else (if ops[0].Subscribe? && ops[0].topic !in s.subscribers then {ops[0].topic} else {})
         + Topics(Next(s, ops[0]), ops[1..])
  }

  /** A registry holds exactly what the calls registered: nothing is lost, cancelled or not. */
  lemma {:induction false} KeysAreRegistered(s: Space, ops: seq<Op>, kind: Kind)
    requires Accepted(s, ops)
    ensures Run(s, ops).Of(kind).Keys == s.Of(kind).Keys + Registered(s, ops, kind)
    decreases |ops|
  {
    if ops != [] {
      StepKeys(s, ops[0], kind);
      KeysAreRegistered(Next(s, ops[0]), ops[1..], kind);
    }
  }

  lemma StepKeys(s: Space, op: Op, kind: Kind)
    requires ResultOf(s, op).Done?
    ensures Next(s, op).Of(kind).Keys == s.Of(kind).Keys + RegisteredBy(s, op, kind)
  {
  }

  /** subscribe is meant to refuse a topic that is subscribed already and to accept any other. After any run
      it does so exactly when the topic is subscribed if and only if it is some subscription's address, and,
      for a new topic, the address is not in use. */
  lemma SubscribeAgreesIff(ops: seq<Op>, address: string, topic: string)
    requires Accepted(EMPTY, ops)
    ensures var topics, addresses := Topics(EMPTY, ops), Registered(EMPTY, ops, Subscribers);
            && Run(EMPTY, ops).subscribers.Keys == addresses
            && (ResultOf(Run(EMPTY, ops), Subscribe(address, topic)) == Done(topic !in topics) <==>
                  && (topic in topics <==> topic in addresses)
                  && (topic !in topics ==> address !in addresses))
  {
    KeysAreRegistered(EMPTY, ops, Subscribers);
    assert Run(EMPTY, ops).Of(Subscribers).Keys == {} + Registered(EMPTY, ops, Subscribers);
  }

  /** The condition fails both ways: a second topic on an address throws, and a subscribed topic is taken
      again at another address. */
  lemma SubscribeLooksUpTheWrongKey(address: string, other: string, t1: string, t2: string)
    requires t2 != address && t1 != address && address != other
    ensures var s := Next(EMPTY, Subscribe(address, t1));
            && ResultOf(s, Subscribe(address, t2)) == Throws
            && ResultOf(s, Subscribe(other, t1)) == Done(true)
  {
  }

  /** The call stops at least one worker. */
  predicate Stops(s: Space, op: Op) {
    match op
    case Cancel(kind, key) => key in s.Of(kind)
    case Quit => s != EMPTY
    case _ => false
  }

  predicate NothingStopped(s: Space, ops: seq<Op>)
    requires Accepted(s, ops)
    decreases |ops|
  {
    ops == [] || (!Stops(s, ops[0]) && NothingStopped(Next(s, ops[0]), ops[1..]))
  }

  lemma StepRunning(s: Space, op: Op)
    requires ResultOf(s, op).Done?
    ensures SpaceRunning(Next(s, op)) <==> SpaceRunning(s) && !Stops(s, op)
  {
    match op
    case Start(kind, key) =>
      if key !in s.Of(kind) {
        AddedRunning(s.Of(kind), key);
        RunningElsewhere(s, Next(s, op), kind);
      }
    case Subscribe(address, topic) =>
      if topic !in s.subscribers {
        AddedRunning(s.subscribers, address);
        RunningElsewhere(s, Next(s, op), Subscribers);
      }
    case Cancel(kind, key) =>
      if key in s.Of(kind) {
        assert !Running(Next(s, op).Of(kind)[key]);
      }
    case Quit =>
      QuitLeavesNoneRunning(s);
  }

  lemma AddedRunning(r: Registry, key: string)
    requires key !in r
    ensures AllRunning(r) <==> AllRunning(r[key := STARTED])
  {
    var r' := r[key := STARTED];
    assert forall k :: k in r ==> k in r' && r'[k] == r[k];
  }

  lemma RunningElsewhere(s: Space, t: Space, kind: Kind)
    requires forall j :: j != kind ==> t.Of(j) == s.Of(j)
    requires AllRunning(s.Of(kind)) <==> AllRunning(t.Of(kind))
    ensures SpaceRunning(s) <==> SpaceRunning(t)
  {
  }

  lemma QuitLeavesNoneRunning(s: Space)
    requires SpaceRunning(s)
    ensures SpaceRunning(SpaceStopped(s)) <==> s == EMPTY
  {
    var t := SpaceStopped(s);
    if s == EMPTY {
      assert forall k: Kind :: t.Of(k) == map[];
    } else {
      var k: Kind :| s.Of(k) != map[];
      var key :| key in s.Of(k);
      assert !Running(t.Of(k)[key]);
    }
  }

  /** quit succeeds after a run exactly when the run stopped no worker before: no accepted cancel of any
      kind, and no earlier quit that found a worker. */
  lemma {:induction false} QuitSucceedsIff(s: Space, ops: seq<Op>)
    requires Accepted(s, ops)
    ensures ResultOf(Run(s, ops), Quit).Done? <==> SpaceRunning(s) && NothingStopped(s, ops)
    decreases |ops|
  {
    if ops != [] {
      StepRunning(s, ops[0]);
      QuitSucceedsIff(Next(s, ops[0]), ops[1..]);
    }
  }

  /** The failing run: start a client, cancel it, quit. */
  lemma QuitAfterCancelThrows(key: string)
    ensures var ops := [Start(Clients, key), Cancel(Clients, key)];
            Accepted(EMPTY, ops) && ResultOf(Run(EMPTY, ops), Quit) == Throws
  {
    var ops := [Start(Clients, key), Cancel(Clients, key)];
    var s := Next(EMPTY, ops[0]);
    assert key in s.Of(Clients) && ops[1..] == [ops[1]] && ops[1..][1..] == [];
    assert Accepted(s, ops[1..]);
    assert !NothingStopped(s, ops[1..]);
    QuitSucceedsIff(EMPTY, ops);
  }

  /** One quit after any run of starts and subscriptions: the workers it finds are exactly those that the
      accepted calls registered, and each of them is signalled once and joined once. */
  lemma QuitStopsEachOnce(ops: seq<Op>, kind: Kind)
    requires Accepted(EMPTY, ops) && NothingStopped(EMPTY, ops)
    ensures ResultOf(Run(EMPTY, ops), Quit) == Done(true)
    ensures var before, after := Run(EMPTY, ops).Of(kind), Next(Run(EMPTY, ops), Quit).Of(kind);
            && before.Keys == after.Keys == Registered(EMPTY, ops, kind)
            && forall key :: key in Registered(EMPTY, ops, kind) ==>
                 && before[key].signals == before[key].joins == 0
                 && after[key].signals == after[key].joins == 1
  {
    assert forall k: Kind :: EMPTY.Of(k) == map[];
    QuitSucceedsIff(EMPTY, ops);
    KeysAreRegistered(EMPTY, ops, kind);
    assert Run(EMPTY, ops).Of(kind).Keys == {} + Registered(EMPTY, ops, kind);
    assert AllRunning(Run(EMPTY, ops).Of(kind));
  }
}
