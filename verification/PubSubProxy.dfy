/** src/messages/pipe/ZMQPubSubProxy.cpp: a forwarding loop with a chain of stateful filters. */
module PubSubProxy {
  import opened Bytes

  /** A filter's `convert`: from its state and a message to its new state and the message it leaves. */
  type Convert<!S> = (S, bytes) -> (S, bytes)

  datatype Published = Published(topic: bytes, payload: bytes)

  /** The in-order fold of the chain over one message. */
  function Chain<S>(filters: seq<Convert<S>>, states: seq<S>, req: bytes): (r: (seq<S>, bytes))
    requires |filters| == |states|
    ensures |r.0| == |states|
  {
    if filters == [] then ([], req)
    else
      var (s, next) := filters[0](states[0], req);
      var (rest, out) := Chain(filters[1..], states[1..], next);
      ([s] + rest, out)
  }

  class Proxy<S> {
    const filters: seq<Convert<S>>
    var states: seq<S>
    var addingFilter: bool
    var inbox: seq<Published>
    var outbox: seq<Published>

    constructor (filters: seq<Convert<S>>, states: seq<S>)
      requires |filters| == |states|
      ensures this.filters == filters && this.states == states
      ensures !addingFilter && inbox == outbox == []
    {
      this.filters, this.states := filters, states;
      addingFilter, inbox, outbox := false, [], [];
    }

    /** __spin__ on started sockets. */
    method Spin()
      requires |filters| == |states|
      modifies this`states, this`inbox, this`outbox
      ensures |filters| == |states|
      ensures old(inbox) == [] ==> inbox == [] && outbox == old(outbox) && states == old(states)
      ensures old(inbox) != [] ==>
                var m := old(inbox)[0];
                var r := if addingFilter then (old(states), m.payload) else Chain(filters, old(states), m.payload);
                && inbox == old(inbox)[1..] && states == r.0
                && outbox == old(outbox) + [Published(m.topic, r.1)]
    {
      if inbox == [] {
        return;
      }
      var topic, req := inbox[0].topic, inbox[0].payload;
      inbox := inbox[1..];
      if !addingFilter {
        ghost var was := states;
        ghost var goal := Chain(filters, states, req);
        var i := 0;
        while i < |filters|
          invariant i <= |filters| == |states| == |was|
          invariant inbox == old(inbox)[1..] && outbox == old(outbox)
          invariant states[i..] == was[i..]
          invariant states[..i] + Chain(filters[i..], was[i..], req).0 == goal.0
          invariant Chain(filters[i..], was[i..], req).1 == goal.1
        {
          ChainUnfolds(filters, was, i, req);
          var (s, next) := filters[i](states[i], req);
          states, req := states[i := s], next;
          i := i + 1;
        }
      }
      outbox := outbox + [Published(topic, req)];
    }
  }

  lemma ChainUnfolds<S>(filters: seq<Convert<S>>, states: seq<S>, i: nat, req: bytes)
    requires i < |filters| == |states|
    ensures var (s, next) := filters[i](states[i], req);
            var (rest, out) := Chain(filters[i + 1..], states[i + 1..], next);
            Chain(filters[i..], states[i..], req) == ([s] + rest, out)
  {
    assert filters[i..][1..] == filters[i + 1..] && states[i..][1..] == states[i + 1..];
  }

  // ---------------------------------------------------------------- streams

  /** The whole stream of payloads through the chain: final states and outputs, one for each input. */
  function Stream<S>(filters: seq<Convert<S>>, states: seq<S>, reqs: seq<bytes>): (r: (seq<S>, seq<bytes>))
    requires |filters| == |states|
    ensures |r.0| == |states| && |r.1| == |reqs|
    decreases |reqs|
  {
    if reqs == [] then (states, [])
    else
      var (next, out) := Chain(filters, states, reqs[0]);
      var (last, outs) := Stream(filters, next, reqs[1..]);
      (last, [out] + outs)
  }

  lemma {:induction false} ChainSplits<S>(f: seq<Convert<S>>, g: seq<Convert<S>>, s: seq<S>, t: seq<S>, req: bytes)
    requires |f| == |s| && |g| == |t|
    ensures var a := Chain(f, s, req);
            var b := Chain(g, t, a.1);
            Chain(f + g, s + t, req) == (a.0 + b.0, b.1)
    decreases |f|
  {
    if f == [] {
      assert f + g == g && s + t == t && s == [];
      assert Chain(f, s, req) == ([], req);
      assert [] + Chain(g, t, req).0 == Chain(g, t, req).0;
    } else {
      var (s0, next) := f[0](s[0], req);
      assert (f + g)[1..] == f[1..] + g && (s + t)[1..] == s[1..] + t;
      ChainSplits(f[1..], g, s[1..], t, next);
      var head := Chain(f[1..], s[1..], next);
      var tail := Chain(g, t, head.1).0;
      assert ([s0] + head.0) + tail == [s0] + (head.0 + tail);
    }
  }

  /** With no filter the payload passes unchanged, and the first filter of a chain sees it first: its output
      goes to the rest. Every filter runs once, on its own state. */
  lemma ChainOrder<S>(filters: seq<Convert<S>>, states: seq<S>, req: bytes, k: nat)
    requires |filters| == |states| && k < |filters|
    ensures Chain<S>([], [], req) == ([], req)
    ensures var r := Chain(filters, states, req);
            var seen := Chain(filters[..k], states[..k], req).1;
            r.0[k] == filters[k](states[k], seen).0
    ensures k == |filters| - 1 ==>
              Chain(filters, states, req).1 == filters[k](states[k], Chain(filters[..k], states[..k], req).1).1
  {
    assert filters == filters[..k] + filters[k..] && states == states[..k] + states[k..];
    ChainSplits(filters[..k], filters[k..], states[..k], states[k..], req);
  }

  /** A proxy with a chain of filters is a pipeline: interleaving the filters message by message gives
      the same outputs and states as sending the whole stream through the first part of the chain and
      then its whole output through the rest. */
  lemma {:induction false} Pipeline<S>(f: seq<Convert<S>>, g: seq<Convert<S>>, s: seq<S>, t: seq<S>, reqs: seq<bytes>)
    requires |f| == |s| && |g| == |t|
    ensures var a := Stream(f, s, reqs);
            var b := Stream(g, t, a.1);
            Stream(f + g, s + t, reqs) == (a.0 + b.0, b.1)
    decreases |reqs|
  {
    if reqs != [] {
      ChainSplits(f, g, s, t, reqs[0]);
      var (s', mid) := Chain(f, s, reqs[0]);
      var (t', out) := Chain(g, t, mid);
      Pipeline(f, g, s', t', reqs[1..]);
      var a := Stream(f, s, reqs);
      assert a.1[0] == mid && a.1[1..] == Stream(f, s', reqs[1..]).1;
    }
  }

  /** Over any run the proxy emits one message for each input, in order, with its own topic and the
      stream's payload. */
  method Drain<S>(proxy: Proxy<S>, inputs: seq<Published>)
    requires |proxy.filters| == |proxy.states| && !proxy.addingFilter
    requires proxy.inbox == inputs && proxy.outbox == []
    modifies proxy`states, proxy`inbox, proxy`outbox
    ensures proxy.inbox == [] && |proxy.outbox| == |inputs|
    ensures var outs := Stream(proxy.filters, old(proxy.states), Payloads(inputs)).1;
            forall k :: 0 <= k < |inputs| ==> proxy.outbox[k] == Published(inputs[k].topic, outs[k])
  {
    ghost var start := proxy.states;
    var k := 0;
    while k < |inputs|
      invariant k <= |inputs| && proxy.inbox == inputs[k..] && |proxy.outbox| == k
      invariant |proxy.filters| == |proxy.states|
      invariant proxy.states == Stream(proxy.filters, start, Payloads(inputs[..k])).0
      invariant forall i :: 0 <= i < k ==>
                  proxy.outbox[i] == Published(inputs[i].topic,
                                               Stream(proxy.filters, start, Payloads(inputs[..k])).1[i])
    {
      assert Payloads(inputs[..k + 1]) == Payloads(inputs[..k]) + [inputs[k].payload];
      StreamSnoc(proxy.filters, start, Payloads(inputs[..k]), inputs[k].payload);
      proxy.Spin();
      k := k + 1;
    }
    assert inputs[..k] == inputs;
  }

  function Payloads(inputs: seq<Published>): (r: seq<bytes>)
    ensures |r| == |inputs|
  {
    seq(|inputs|, i requires 0 <= i < |inputs| => inputs[i].payload)
  }

  lemma {:induction false} StreamSnoc<S>(filters: seq<Convert<S>>, states: seq<S>, reqs: seq<bytes>, req: bytes)
    requires |filters| == |states|
    ensures var a := Stream(filters, states, reqs);
            var c := Chain(filters, a.0, req);
            Stream(filters, states, reqs + [req]) == (c.0, a.1 + [c.1])
    decreases |reqs|
  {
    if reqs == [] {
      var c := Chain(filters, states, req);
      assert reqs + [req] == [req] && [req][1..] == [];
      assert Stream(filters, c.0, []) == (c.0, []);
      assert [c.1] + [] == [c.1] == [] + [c.1];
    } else {
      assert (reqs + [req])[1..] == reqs[1..] + [req];
      var (next, out) := Chain(filters, states, reqs[0]);
      StreamSnoc(filters, next, reqs[1..], req);
      var a := Stream(filters, next, reqs[1..]);
      var last := Chain(filters, a.0, req).1;
      assert [out] + (a.1 + [last]) == ([out] + a.1) + [last];
    }
  }
}
