// What a ticket delivers, spelled out: the text of a broadcast, the answer to a single message, averages, and
// the jobs that deliver nothing.
module BifrostAnswers {
  import opened Common
  import J = JsonSpec
  import opened BifrostSpec
  import opened BifrostGather

  // ---------------------------------------------------------------- the text of a broadcast

  // The text is an object with the command, a status and the responses in their order, each with its url,
  // its message and a status.
  lemma BatchInFull(rs: seq<Response>, command: string)
    ensures var p := J.ParseValue(BatchText(rs, command), 100);
            && p.Done? && p.rest == "" && p.value.Object? && J.KeyOrdered(p.value.members)
            && J.Member("command", J.String(command)) in p.value.members
            && J.Member("status", J.String("200")) in p.value.members
            && exists items: seq<J.Value> ::
                 && J.Member("responses", J.Array(items)) in p.value.members && |items| == |rs|
                 && forall i | 0 <= i < |rs| ::
                      && items[i].Object? && J.KeyOrdered(items[i].members)
                      && J.Member("url", J.String(rs[i].url)) in items[i].members
                      && J.Member("message", J.String(rs[i].content)) in items[i].members
                      && J.Member("status", J.String("200")) in items[i].members
  {
    hide J.ParseValue, BatchText, J.Less;
    BatchParses(rs, command);
    BatchOrdered(rs, command);
    var v := BatchValue(rs, command);
    var items := v.members[1].value.items;
    assert v.members[0] in v.members && v.members[1] in v.members && v.members[2] in v.members;
    forall i | 0 <= i < |rs|
      ensures items[i] == EntryOf(rs[i]) && J.KeyOrdered(items[i].members)
      ensures J.Member("url", J.String(rs[i].url)) in items[i].members
      ensures J.Member("message", J.String(rs[i].content)) in items[i].members
      ensures J.Member("status", J.String("200")) in items[i].members
    {
      EntryOrdered(rs[i]);
      var ms := items[i].members;
      assert ms[0] in ms && ms[1] in ms && ms[2] in ms;
    }
  }

  // The first answer is that of the first reply to the message.
  lemma {:induction false} FirstAnswerIs(rs: seq<Reply>, ticket: int, id: int) returns (k: nat)
    requires Answered(rs, ticket, id)
    ensures k < |rs| && rs[k].ticket == ticket && rs[k].messageId == id
    ensures forall j | 0 <= j < k :: rs[j].ticket != ticket || rs[j].messageId != id
    ensures FirstAnswer(rs, ticket, id) == rs[k].content
    decreases |rs|
  {
    var n := |rs| - 1;
    if Answered(rs[..n], ticket, id) {
      k := FirstAnswerIs(rs[..n], ticket, id);
    } else {
      k := n;
      forall j | 0 <= j < n
        ensures rs[j].ticket != ticket || rs[j].messageId != id
      {
        assert !Answers(rs[..n][j], ticket, id);
      }
      var i :| 0 <= i < |rs| && Answers(rs[i], ticket, id);
    }
  }

  // What a broadcast delivers, in any run that answers every message: one entry for each message, in the
  // order of sending, with its url and the content of the first reply to it.
  lemma DeliveredInFull(n: Node, ms: seq<Message>, rs: seq<Reply>, ticket: int)
    requires Broadcast(n, ms, rs, ticket) && CanFulfillAll(n, rs) && Complete(ms, rs, ticket)
    ensures Delivery(n, rs, ticket).Some?
    ensures var p := J.ParseValue(Delivery(n, rs, ticket).value, 100);
            && p.Done? && p.rest == "" && p.value.Object?
            && exists items: seq<J.Value> ::
                 && J.Member("responses", J.Array(items)) in p.value.members && |items| == |ms|
                 && forall i | 0 <= i < |ms| ::
                      && items[i].Object? && J.Member("url", J.String(ms[i].url)) in items[i].members
                      && exists k | 0 <= k < |rs| ::
                           && rs[k].ticket == ticket && rs[k].messageId == ms[i].id
                           && (forall j | 0 <= j < k :: rs[j].ticket != ticket || rs[j].messageId != ms[i].id)
                           && J.Member("message", J.String(rs[k].content)) in items[i].members
  {
    hide J.ParseValue, J.KeyOrdered, BatchText, Delivery, NodeAfter, Broadcast, CanFulfillAll, FirstAnswers, Complete;
    DeliveryIs(n, ms, rs, ticket);
    var answers := FirstAnswers(ms, rs, ticket);
    AsManyAnswers(ms, rs, ticket);
    BatchInFull(answers, "null");
    var p := J.ParseValue(BatchText(answers), 100);
    var items: seq<J.Value> :| J.Member("responses", J.Array(items)) in p.value.members && |items| == |answers|
      && forall i | 0 <= i < |answers| ::
           && items[i].Object? && J.Member("url", J.String(answers[i].url)) in items[i].members
           && J.Member("message", J.String(answers[i].content)) in items[i].members;
    forall i | 0 <= i < |ms|
      ensures items[i].Object? && J.Member("url", J.String(ms[i].url)) in items[i].members
      ensures exists k | 0 <= k < |rs| ::
                && rs[k].ticket == ticket && rs[k].messageId == ms[i].id
                && (forall j | 0 <= j < k :: rs[j].ticket != ticket || rs[j].messageId != ms[i].id)
                && J.Member("message", J.String(rs[k].content)) in items[i].members
    {
      var k := AnswerOf(ms, rs, ticket, i);
    }
  }

  lemma AsManyAnswers(ms: seq<Message>, rs: seq<Reply>, ticket: int)
    requires Complete(ms, rs, ticket)
    ensures |FirstAnswers(ms, rs, ticket)| == |ms|
  {
  }

  lemma AnswerOf(ms: seq<Message>, rs: seq<Reply>, ticket: int, i: nat) returns (k: nat)
    requires Complete(ms, rs, ticket) && i < |ms|
    ensures |FirstAnswers(ms, rs, ticket)| == |ms| && k < |rs|
    ensures rs[k].ticket == ticket && rs[k].messageId == ms[i].id
    ensures forall j | 0 <= j < k :: rs[j].ticket != ticket || rs[j].messageId != ms[i].id
    ensures FirstAnswers(ms, rs, ticket)[i] == Response(ms[i].url, rs[k].content)
  {
    hide FirstAnswer;
    k := FirstAnswerIs(rs, ticket, ms[i].id);
  }

  // ---------------------------------------------------------------- single messages, and nothing

  // A single message is answered by the first reply, whatever its message id: its content is delivered and
  // the ticket is gone.
  lemma SimpleReplyDelivers(n: Node, r: Reply)
    requires r.ticket in n.brokers && r.brokerType == "simple" && r.callback == None
    ensures var f := Fulfill(n, r);
            && f.status == 1 && f.response == r.content && f.callback == None && f.mean == None
            && f.node.latencies == n.latencies && r.ticket !in f.node.brokers
            && forall t | t != r.ticket ::
                 && (t in f.node.brokers <==> t in n.brokers)
                 && (t in n.brokers ==> f.node.brokers[t] == n.brokers[t])
  {
  }

  // A callback on its way: a sample is added, and nothing else changes on the node.
  lemma BounceAddsASample(n: Node, r: Reply, m: Message, more: seq<Message>)
    requires r.ticket in n.brokers && n.brokers[r.ticket] == [m] + more && r.brokerType == "ricochet"
    requires r.callback.Some? && !r.callback.value.resolved
    ensures var (f, l) := (Fulfill(n, r), n.latencies);
            && f.status == 2 && f.response == "" && f.callback.Some? && f.node.brokers == n.brokers
            && f.node.latencies == l[r.ticket := (if r.ticket in l then l[r.ticket] else []) + [m.latency]]
            && (f.callback.value.resolved <==> r.callback.value.count == r.callback.value.limit)
  {
  }

  // An unknown ticket, a callback where none belongs or none where one does, and any other type change
  // nothing and deliver nothing.
  lemma OtherJobsChangeNothing(n: Node, r: Reply)
    requires r.callback.Some? ==> !r.callback.value.resolved
    requires r.ticket !in n.brokers
             || (r.callback.None? && r.brokerType != "simple" && r.brokerType != "broadcast")
             || (r.callback.Some? && r.brokerType != "ricochet")
    ensures Fulfill(n, r) == Fulfillment(n, 0, "", r.callback, None)
  {
  }

  // ---------------------------------------------------------------- averages

  lemma {:induction false} SumAdds(a: seq<real>, b: seq<real>)
    ensures Sum(a + b) == Sum(a) + Sum(b)
    decreases |b|
  {
    if b == [] {
      assert a + b == a;
    } else {
      var n := |b| - 1;
      SumAdds(a, b[..n]);
      assert (a + b)[..|a + b| - 1] == a + b[..n];
    }
  }

  // The sum of one sample is the sample, sums add up, and the mean is the number whose multiple is the sum.
  lemma MeanIs(a: seq<real>, b: seq<real>, x: real)
    ensures Sum([]) == 0.0 && Sum([x]) == x && Sum(a + b) == Sum(a) + Sum(b)
    ensures a != [] ==> Mean(a) * |a| as real == Sum(a)
  {
    SumAdds(a, b);
    assert [x][..0] == [];
    if a != [] {
      Divided(Sum(a), |a| as real);
    }
  }

  lemma Divided(x: real, y: real)
    requires y != 0.0
    ensures x / y * y == x
  {
  }

  lemma MeanExample()
    ensures Mean([1.0, 2.0, 6.0]) == 3.0
  {
    MeanIs([1.0], [2.0], 6.0);
    MeanIs([1.0] + [2.0], [6.0], 1.0);
    MeanIs([], [], 2.0);
    hide Sum;
    assert [1.0] + [2.0] + [6.0] == [1.0, 2.0, 6.0];
  }
}
