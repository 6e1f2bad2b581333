/** src/messages/pipe/ZMQServerProxy.cpp: the two-way relay of multipart messages. */
module ServerProxy {
  import opened Bytes

  datatype Frame = Frame(body: bytes, more: bool)

  /** A multipart message: every part but the last says that more follow. */
  predicate IsMessage(m: seq<Frame>) {
    m != [] && !m[|m| - 1].more && forall i :: 0 <= i < |m| - 1 ==> m[i].more
  }

  /** ZeroMQ delivers whole messages, so what waits in a socket is a list of them. */
  function Flat(ms: seq<seq<Frame>>): seq<Frame> {
    if ms == [] then [] else ms[0] + Flat(ms[1..])
  }

  predicate Messages(ms: seq<seq<Frame>>) {
    forall m :: m in ms ==> IsMessage(m)
  }

  /** One direction of the relay: messages waiting at one socket, frames sent on the other. */
  datatype Direction = Direction(waiting: seq<seq<Frame>>, sent: seq<Frame>)

  function Forwarded(d: Direction): Direction {
    if d.waiting == [] then d else Direction(d.waiting[1..], d.sent + d.waiting[0])
  }

  class Proxy {
    var started: bool
    var frontIn: seq<Frame>
    var backIn: seq<Frame>
    var frontOut: seq<Frame>
    var backOut: seq<Frame>

    constructor ()
      ensures !started && frontIn == backIn == frontOut == backOut == []
    {
      started, frontIn, backIn, frontOut, backOut := false, [], [], [], [];
    }

    /** __spin__: at most one message each way, part by part. */
    method Spin(ghost front: seq<seq<Frame>>, ghost back: seq<seq<Frame>>)
      requires Messages(front) && Messages(back) && frontIn == Flat(front) && backIn == Flat(back)
      modifies this`frontIn, this`backIn, this`frontOut, this`backOut
      ensures var toBack := if started then Forwarded(Direction(front, old(backOut)))
                            else Direction(front, old(backOut));
              frontIn == Flat(toBack.waiting) && backOut == toBack.sent
      ensures var toFront := if started then Forwarded(Direction(back, old(frontOut)))
                             else Direction(back, old(frontOut));
              backIn == Flat(toFront.waiting) && frontOut == toFront.sent
    {
      if !started {
        return;
      }
      var frontReady, backReady := frontIn != [], backIn != [];
      NonemptyFlat(front);
      NonemptyFlat(back);
      if frontReady {
        frontIn, backOut := Relay(frontIn, backOut, front);
      }
      if backReady {
        backIn, frontOut := Relay(backIn, frontOut, back);
      }
    }
  }

  lemma NonemptyFlat(ms: seq<seq<Frame>>)
    requires Messages(ms)
    ensures Flat(ms) == [] <==> ms == []
  {
    if ms != [] {
      assert IsMessage(ms[0]);
    }
  }

  /** `while (1) { recv; send with the same more flag; if (!more) break; }` */
  method Relay(input: seq<Frame>, output: seq<Frame>, ghost ms: seq<seq<Frame>>)
    returns (rest: seq<Frame>, sent: seq<Frame>)
    requires Messages(ms) && ms != [] && input == Flat(ms)
    ensures rest == Flat(ms[1..]) && sent == output + ms[0]
  {
    ghost var m, n := ms[0], 0;
    assert IsMessage(m) && input == m + Flat(ms[1..]);
    rest, sent := input, output;
    while true
      invariant n < |m| && rest == m[n..] + Flat(ms[1..]) && sent == output + m[..n]
      decreases |m| - n
    {
      assert rest[0] == m[n];
      var message := rest[0];
      rest := rest[1..];
      var more := message.more;
      sent := sent + [Frame(message.body, more)];
      n := n + 1;
      assert m[..n] == m[..n - 1] + [m[n - 1]];
      if !more {
        break;
      }
    }
    assert m[..n] == m && m[n..] == [];
  }

  // ---------------------------------------------------------------- conservation over runs

  datatype Event = Arrive(m: seq<Frame>) | Spin

  function Step(d: Direction, e: Event): Direction {
    match e
    case Arrive(m) => d.(waiting := d.waiting + [m])
    case Spin => Forwarded(d)
  }

  function Run(events: seq<Event>): Direction {
    if events == [] then Direction([], [])
    else Step(Run(events[..|events| - 1]), events[|events| - 1])
  }

  function Arrived(events: seq<Event>): seq<seq<Frame>> {
    if events == [] then []
    else
      var e := events[|events| - 1];
      Arrived(events[..|events| - 1]) + if e.Arrive? then [e.m] else []
  }

  /** What an ideal queue that gives one message a spin has given after a run. */
  function Given(events: seq<Event>): (k: nat)
    ensures k <= |Arrived(events)|
  {
    if events == [] then 0
    else
      var before := events[..|events| - 1];
      Given(before) + if events[|events| - 1].Spin? && Given(before) < |Arrived(before)| then 1 else 0
  }

  /** Conservation: what was sent is exactly the first so many messages that arrived, parts, order and
      more-flags included, and the rest still waits; the cut always falls between messages. */
  lemma {:induction false} Conservation(events: seq<Event>)
    ensures Run(events).sent == Flat(Arrived(events)[..Given(events)])
    ensures Run(events).waiting == Arrived(events)[Given(events)..]
    decreases |events|
  {
    if events != [] {
      var n := |events| - 1;
      var before := events[..n];
      Conservation(before);
      var all, k := Arrived(before), Given(before);
      if events[n].Arrive? {
        KeepsCut(all, events[n].m, k);
      } else if k < |all| {
        FlatSnoc(all[..k], all[k]);
        assert all[..k] + [all[k]] == all[..k + 1];
        assert all[k..][1..] == all[k + 1..] && all[k..][0] == all[k];
        assert Arrived(events) == all;
      } else {
        assert Arrived(events) == all;
      }
    }
  }

  /** A spin never idles while a message waits: m spins forward m messages, or all there are. */
  lemma {:induction false} SpinsDeliver(events: seq<Event>, m: nat)
    ensures var more := events + seq(m, _ => Spin);
            && Arrived(more) == Arrived(events)
            && Given(more) == if Given(events) + m <= |Arrived(events)| then Given(events) + m else |Arrived(events)|
  {
    var more := events + seq(m, _ => Spin);
    if m == 0 {
      assert more == events;
    } else {
      assert more[..|more| - 1] == events + seq(m - 1, _ => Spin);
      SpinsDeliver(events, m - 1);
    }
  }

  lemma KeepsCut(all: seq<seq<Frame>>, m: seq<Frame>, k: nat)
    requires k <= |all|
    ensures (all + [m])[..k] == all[..k] && (all + [m])[k..] == all[k..] + [m]
  {
  }

  lemma {:induction false} FlatSnoc(ms: seq<seq<Frame>>, m: seq<Frame>)
    ensures Flat(ms + [m]) == Flat(ms) + m
  {
    if ms == [] {
      assert [m][1..] == [];
    } else {
      assert (ms + [m])[1..] == ms[1..] + [m];
      FlatSnoc(ms[1..], m);
    }
  }
}
