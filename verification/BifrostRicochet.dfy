// A ricochet between two nodes: the callback bounces until its limit is reached
// (Bifrost::fulfill and the handler PingRicochet of core/include/jericho/api/fl_api.h).
module BifrostRicochet {
  import opened Common
  import opened BifrostSpec

  // The callback in flight, and the node it arrives at next. bounces counts the fulfill steps so far;
  // mean is what the last of them put into the content.
  datatype Game = Game(
    initiator: Node, remote: Node, ticket: int, callback: Callback, atRemote: bool, bounces: nat, mean: Option<real>)

  function Here(g: Game): Node { if g.atRemote then g.remote else g.initiator }

  // Both nodes hold the ticket.
  predicate Playable(g: Game)
  {
    && g.ticket in g.initiator.brokers && g.initiator.brokers[g.ticket] != []
    && g.ticket in g.remote.brokers && g.remote.brokers[g.ticket] != []
  }

  function Arrival(g: Game): Reply
  {
    Reply(g.ticket, "ricochet", 0, "null", Some(g.callback))
  }

  // ricochet_reply: the node registers one message for the ticket and sends the callback back. The
  // message is given as it stands when the callback returns, with the latency that was measured.
  function Registered(n: Node, ticket: int, m: Message): Node
  {
    n.(brokers := n.brokers[ticket := [m]])
  }

  // One arrival: fulfill, and the answer of PingRicochet unless the callback is resolved.
  function Bounce(g: Game, m: Message): Game
    requires Playable(g) && !g.callback.resolved
  {
    var f := Fulfill(Here(g), Arrival(g));
    var cb := f.callback.value;
    var n := if cb.resolved then f.node else Registered(f.node, g.ticket, m);
    Game(if g.atRemote then g.initiator else n, if g.atRemote then n else g.remote, g.ticket, cb, !g.atRemote,
         g.bounces + 1, f.mean)
  }

  lemma BounceKeeps(g: Game, m: Message)
    requires Playable(g) && !g.callback.resolved
    ensures Playable(Bounce(g, m))
    ensures Fulfill(Here(g), Arrival(g)).status == 2
    ensures Bounce(g, m).callback == Bounced(g.callback)
  {
  }

  // The run with the given answers; nothing happens any more once the callback is resolved.
  function Play(g: Game, answers: seq<Message>): (r: Game)
    requires Playable(g)
    ensures Playable(r)
    decreases |answers|
  {
    if |answers| == 0 then g
    else
      var h := Play(g, answers[..|answers| - 1]);
      if h.callback.resolved then h
      else BounceKeeps(h, answers[|answers| - 1]); Bounce(h, answers[|answers| - 1])
  }

  // What ClientProfile sets up: count 0 and not a satellite, sent to the remote node.
  predicate Started(g: Game)
  {
    Playable(g) && g.atRemote && g.bounces == 0 && g.mean.None?
    && g.callback.count == 0 && !g.callback.satellite && !g.callback.resolved
  }

  // ---------------------------------------------------------------- the run

  // The number of fulfill steps until the callback is resolved, for a limit that is not negative.
  function Length(limit: int): nat
    requires limit >= 0
  {
    if limit == 0 then 1 else 2 * limit
  }

  lemma {:induction false} CallbackAfter(g: Game, answers: seq<Message>)
    requires Started(g)
    ensures var h := Play(g, answers);
            && h.callback.limit == g.callback.limit && h.callback.fn == g.callback.fn && h.ticket == g.ticket
            && (h.callback.resolved <==> g.callback.limit >= 0 && |answers| >= Length(g.callback.limit))
            && h.bounces == (if h.callback.resolved then Length(g.callback.limit) else |answers|)
            && h.atRemote == (h.bounces % 2 == 0)
            && (!h.callback.resolved ==> h.callback.count == (h.bounces + 1) / 2
                                         && h.callback.satellite == (h.bounces % 2 == 1))
            && (h.callback.resolved ==> h.callback.count == g.callback.limit)
    decreases |answers|
  {
    hide Fulfill;
    if |answers| > 0 {
      var front, last := answers[..|answers| - 1], answers[|answers| - 1];
      CallbackAfter(g, front);
      var h := Play(g, front);
      if !h.callback.resolved {
        BounceKeeps(h, last);
        assert Play(g, answers) == Bounce(h, last);
      }
    }
  }

  // The callback is resolved exactly by the fulfill step number 2L, and that step happens at the
  // initiator.
  lemma {:induction false} ResolvedAtTwiceTheLimit(g: Game, answers: seq<Message>)
    requires Started(g) && g.callback.limit > 0
    ensures Play(g, answers).callback.resolved <==> |answers| >= 2 * g.callback.limit
    ensures |answers| == 2 * g.callback.limit ==>
              var h := Play(g, answers[..|answers| - 1]); !h.callback.resolved && !h.atRemote
  {
    hide Play;
    CallbackAfter(g, answers);
    if |answers| == 2 * g.callback.limit {
      LastBounceOf(g, answers[..|answers| - 1]);
    }
  }

  lemma LastBounceOf(g: Game, answers: seq<Message>)
    requires Started(g) && g.callback.limit > 0 && |answers| == 2 * g.callback.limit - 1
    ensures !Play(g, answers).callback.resolved && !Play(g, answers).atRemote
  {
    hide Play;
    CallbackAfter(g, answers);
    var n := g.callback.limit - 1;
    assert |answers| == 2 * n + 1;
    assert |answers| % 2 == 1;
  }

  // A negative limit is never reached, and a limit of zero ends the run at the remote node.
  lemma {:induction false} ResolvedOnlyForOtherLimits(g: Game, answers: seq<Message>)
    requires Started(g) && g.callback.limit <= 0
    ensures Play(g, answers).callback.resolved <==> g.callback.limit == 0 && |answers| > 0
    ensures Play(g, answers).callback.resolved ==> Play(g, answers).bounces == 1 && !Play(g, answers).atRemote
  {
    CallbackAfter(g, answers);
  }

  // Bounces left.
  function Left(cb: Callback): int
  {
    if cb.resolved then 0 else 2 * (cb.limit - cb.count) + (if cb.satellite then 1 else 0)
  }

  // count never passes the limit, and each bounce leaves one less to go.
  lemma CountStaysWithinLimit(g: Game, answers: seq<Message>)
    requires Started(g) && g.callback.limit > 0
    ensures var h := Play(g, answers);
            0 <= h.callback.count <= h.callback.limit && Left(h.callback) == 2 * g.callback.limit - h.bounces >= 0
  {
    hide Play;
    CallbackAfter(g, answers);
  }

  // ---------------------------------------------------------------- the average

  // The latencies the initiator sees: of the first message, and of each of its own answers.
  function Samples(first: real, answers: seq<Message>, count: nat): (r: seq<real>)
    requires count > 0 ==> 2 * count - 2 <= |answers|
    ensures |r| == count
  {
    seq(count, i requires 0 <= i < count => if i == 0 then first else answers[2 * i - 1].latency)
  }

  // The latency of the message the initiator waits for.
  function Pending(g: Game): real
    requires Playable(g)
  {
    g.initiator.brokers[g.ticket][0].latency
  }

  // What one bounce does at the initiator.
  lemma BounceAtInitiator(g: Game, m: Message)
    requires Playable(g) && !g.callback.resolved
    ensures var h, before, after := Bounce(g, m), LatenciesOf(g.initiator, g.ticket),
                                    LatenciesOf(Bounce(g, m).initiator, g.ticket);
            && Playable(h)
            && (g.atRemote ==> after == before && Pending(h) == Pending(g))
            && (!g.atRemote ==> after == before + [Pending(g)] && (!h.callback.resolved ==> Pending(h) == m.latency))
            && (!g.atRemote && h.callback.resolved && g.callback.fn == "AVG" ==> h.mean == Some(Mean(after)))
  {
  }

  lemma SamplesStep(first: real, answers: seq<Message>, n: nat)
    requires n + 1 == |answers|
    ensures n % 2 == 0 ==> Samples(first, answers, (n + 1) / 2) == Samples(first, answers[..n], n / 2)
    ensures n % 2 == 1 ==>
              Samples(first, answers, (n + 1) / 2)
              == Samples(first, answers[..n], n / 2) + [if n == 1 then first else answers[n - 2].latency]
  {
  }

  // n fulfill steps have given the initiator n / 2 samples; before the last step the next sample is
  // the latency of its latest message.
  lemma {:induction false} SamplesAfter(g: Game, answers: seq<Message>)
    requires Started(g) && g.callback.limit > 0 && |answers| <= 2 * g.callback.limit
    ensures var n, h := |answers|, Play(g, answers);
            && LatenciesOf(h.initiator, g.ticket)
              == LatenciesOf(g.initiator, g.ticket) + Samples(Pending(g), answers, n / 2)
            && h.ticket == g.ticket
            && (n < 2 * g.callback.limit ==> Pending(h) == if n < 2 then Pending(g) else answers[n / 2 * 2 - 1].latency)
    decreases |answers|
  {
    hide Fulfill, Samples, LatenciesOf, Bounce;
    CallbackAfter(g, answers);
    if |answers| == 0 {
      NoSamples(g, answers);
    } else {
      var n := |answers| - 1;
      var front := answers[..n];
      CallbackAfter(g, front);
      SamplesAfter(g, front);
      SamplesStep(Pending(g), answers, n);
      var h := Play(g, front);
      PlayStep(g, answers);
      BounceAtInitiator(h, answers[n]);
    }
  }

  // The last step of a run that is not over before.
  lemma PlayStep(g: Game, answers: seq<Message>)
    requires Playable(g) && answers != [] && !Play(g, answers[..|answers| - 1]).callback.resolved
    ensures Play(g, answers) == Bounce(Play(g, answers[..|answers| - 1]), answers[|answers| - 1])
  {
    hide Bounce;
  }

  lemma NoSamples(g: Game, answers: seq<Message>)
    requires Playable(g)
    ensures LatenciesOf(g.initiator, g.ticket) == LatenciesOf(g.initiator, g.ticket) + Samples(Pending(g), answers, 0)
  {
  }

  // For a fresh ticket the step that resolves the callback averages exactly L samples.
  lemma AverageOverLimitSamples(g: Game, answers: seq<Message>)
    requires Started(g) && g.callback.limit > 0 && |answers| == 2 * g.callback.limit
    requires g.callback.fn == "AVG" && g.ticket !in g.initiator.latencies
    ensures var samples := Samples(Pending(g), answers, g.callback.limit);
            |samples| == g.callback.limit && Play(g, answers).mean == Some(Mean(samples))
  {
    hide Fulfill, Samples, Mean, Play, Bounce;
    var n := |answers| - 1;
    CallbackAfter(g, answers[..n]);
    CallbackAfter(g, answers);
    SamplesAfter(g, answers);
    PlayStep(g, answers);
    BounceAtInitiator(Play(g, answers[..n]), answers[n]);
    Neutral(Samples(Pending(g), answers, g.callback.limit));
  }

  // Only the step that resolves the callback averages, and only when that is its function.
  lemma {:induction false} MeanOnlyForAverage(g: Game, answers: seq<Message>)
    requires Started(g)
    ensures Play(g, answers).mean.Some? <==> Play(g, answers).callback.resolved && g.callback.fn == "AVG"
    decreases |answers|
  {
    hide LatenciesOf, Mean;
    if answers != [] {
      var front := answers[..|answers| - 1];
      MeanOnlyForAverage(g, front);
      CallbackAfter(g, front);
      if !Play(g, front).callback.resolved {
        PlayStep(g, answers);
      }
    }
  }

  // The run leaves the ticket at both nodes. A resolved callback would end it wherever it arrived, but the
  // node that resolves it sends it to nobody (PingRicochet).
  lemma TicketOutlivesTheRun(g: Game, answers: seq<Message>)
    requires Started(g) && g.callback.limit >= 0 && |answers| >= Length(g.callback.limit)
    ensures var h := Play(g, answers);
            && h.callback.resolved && h.ticket == g.ticket
            && g.ticket in h.initiator.brokers && g.ticket in h.remote.brokers
            && g.ticket !in Fulfill(h.initiator, Arrival(h)).node.brokers
            && g.ticket !in Fulfill(h.remote, Arrival(h)).node.brokers
  {
    hide Play, Fulfill;
    CallbackAfter(g, answers);
    var h := Play(g, answers);
    ResolvedCallbackEndsTicket(h.initiator, Arrival(h));
    ResolvedCallbackEndsTicket(h.remote, Arrival(h));
  }

  // A resolved callback that arrives ends the ticket.
  lemma ResolvedCallbackEndsTicket(n: Node, r: Reply)
    requires r.callback.Some? && r.callback.value.resolved && r.ticket in n.brokers
    ensures Fulfill(n, r).status == 2 && Fulfill(n, r).response == "" && Fulfill(n, r).callback.None?
    ensures Fulfill(n, r).node.brokers == n.brokers - {r.ticket} && Fulfill(n, r).node.latencies == n.latencies
    ensures forall later: Reply | later.ticket == r.ticket :: Fulfill(Fulfill(n, r).node, later).status == 0
  {
  }
}
