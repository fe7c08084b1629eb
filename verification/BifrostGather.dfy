// A broadcast: replies in any order, with duplicates and unknown ids, and mixed with replies to other
// tickets.
module BifrostGather {
  import opened Common
  import opened JsonText
  import J = JsonSpec
  import JsonRoundTrip
  import opened BifrostSpec

  predicate Answers(r: Reply, ticket: int, id: int) { r.ticket == ticket && r.messageId == id }

  predicate Answered(rs: seq<Reply>, ticket: int, id: int)
  {
    exists k | 0 <= k < |rs| :: Answers(rs[k], ticket, id)
  }

  function FirstAnswer(rs: seq<Reply>, ticket: int, id: int): string
    requires Answered(rs, ticket, id)
  {
    var n := |rs| - 1;
    if Answered(rs[..n], ticket, id) then FirstAnswer(rs[..n], ticket, id) else rs[n].content
  }

  predicate Mentioned(rs: seq<Reply>, ticket: int)
  {
    exists k | 0 <= k < |rs| :: rs[k].ticket == ticket
  }

  // Every message has been answered; a broadcast without messages needs one reply all the same.
  predicate Complete(ms: seq<Message>, rs: seq<Reply>, ticket: int)
  {
    Mentioned(rs, ticket) && forall i | 0 <= i < |ms| :: Answered(rs, ticket, ms[i].id)
  }

  function Received(ms: seq<Message>, rs: seq<Reply>, ticket: int): (r: seq<Message>)
    ensures |r| == |ms|
  {
    seq(|ms|, i requires 0 <= i < |ms| =>
      if Answered(rs, ticket, ms[i].id) then ms[i].(fulfilled := 1, received := FirstAnswer(rs, ticket, ms[i].id))
      else ms[i])
  }

  // One entry a message, in the order of sending, with its first answer.
  function FirstAnswers(ms: seq<Message>, rs: seq<Reply>, ticket: int): (r: seq<Response>)
    requires Complete(ms, rs, ticket)
  {
    seq(|ms|, i requires 0 <= i < |ms| => Response(ms[i].url, FirstAnswer(rs, ticket, ms[i].id)))
  }

  // The ticket of a broadcast as it is registered, and replies without a callback.
  predicate Broadcast(n: Node, ms: seq<Message>, rs: seq<Reply>, ticket: int)
  {
    && ticket in n.brokers && n.brokers[ticket] == ms
    && (forall i | 0 <= i < |ms| :: ms[i].fulfilled == 0)
    && (forall k | 0 <= k < |rs| :: rs[k].ticket == ticket ==> rs[k].brokerType == "broadcast" && rs[k].callback.None?)
  }

  lemma AnsweredSnoc(rs: seq<Reply>, r: Reply, ticket: int, id: int)
    ensures Answered(rs + [r], ticket, id) <==> Answered(rs, ticket, id) || Answers(r, ticket, id)
    ensures Mentioned(rs + [r], ticket) <==> Mentioned(rs, ticket) || r.ticket == ticket
    ensures Answered(rs, ticket, id) ==> FirstAnswer(rs + [r], ticket, id) == FirstAnswer(rs, ticket, id)
    ensures !Answered(rs, ticket, id) && Answers(r, ticket, id) ==> FirstAnswer(rs + [r], ticket, id) == r.content
  {
    var all := rs + [r];
    assert all[..|rs|] == rs && all[|rs|] == r;
    if Answered(rs, ticket, id) {
      var k :| 0 <= k < |rs| && Answers(rs[k], ticket, id);
      assert Answers(all[k], ticket, id);
    }
    if Mentioned(rs, ticket) {
      var k :| 0 <= k < |rs| && rs[k].ticket == ticket;
      assert all[k].ticket == ticket;
    }
  }

  lemma ReceivedSnoc(ms: seq<Message>, rs: seq<Reply>, r: Reply, ticket: int)
    requires forall i | 0 <= i < |ms| :: ms[i].fulfilled == 0
    ensures r.ticket != ticket ==> Received(ms, rs + [r], ticket) == Received(ms, rs, ticket)
    ensures r.ticket == ticket ==>
              Received(ms, rs + [r], ticket) == MarkAll(Received(ms, rs, ticket), r.messageId, r.content)
  {
    hide FirstAnswer, Answered;
    forall i | 0 <= i < |ms|
      ensures Received(ms, rs + [r], ticket)[i]
           == if r.ticket == ticket then Mark(Received(ms, rs, ticket)[i], r.messageId, r.content)
              else Received(ms, rs, ticket)[i]
    {
      AnsweredSnoc(rs, r, ticket, ms[i].id);
    }
  }

  lemma ReceivedAll(ms: seq<Message>, rs: seq<Reply>, ticket: int)
    requires forall i | 0 <= i < |ms| :: ms[i].fulfilled == 0
    ensures AllFulfilled(Received(ms, rs, ticket)) <==> forall i | 0 <= i < |ms| :: Answered(rs, ticket, ms[i].id)
  {
    hide FirstAnswer, Answered;
    forall i | 0 <= i < |ms|
      ensures Received(ms, rs, ticket)[i].fulfilled != 0 <==> Answered(rs, ticket, ms[i].id)
    {
    }
    if AllFulfilled(Received(ms, rs, ticket)) {
      forall i | 0 <= i < |ms|
        ensures Answered(rs, ticket, ms[i].id)
      {
        assert Received(ms, rs, ticket)[i].fulfilled != 0;
      }
    }
  }

  // What has become of the ticket after any replies.
  lemma {:induction false} TicketAfter(n: Node, ms: seq<Message>, rs: seq<Reply>, ticket: int)
    requires Broadcast(n, ms, rs, ticket) && CanFulfillAll(n, rs)
    ensures if Complete(ms, rs, ticket) then ticket !in NodeAfter(n, rs).brokers
            else ticket in NodeAfter(n, rs).brokers && NodeAfter(n, rs).brokers[ticket] == Received(ms, rs, ticket)
    decreases |rs|
  {
    hide FirstAnswer, BatchText, Received;
    if rs == [] {
      NothingReceived(ms, ticket);
    } else {
      var front, r := rs[..|rs| - 1], rs[|rs| - 1];
      assert rs == front + [r];
      TicketAfter(n, ms, front, ticket);
      CompleteSnoc(ms, front, r, ticket);
      ReceivedSnoc(ms, front, r, ticket);
      ReceivedAll(ms, rs, ticket);
    }
  }

  lemma NothingReceived(ms: seq<Message>, ticket: int)
    ensures Received(ms, [], ticket) == ms && !Mentioned([], ticket)
  {
  }

  lemma CompleteSnoc(ms: seq<Message>, rs: seq<Reply>, r: Reply, ticket: int)
    ensures Complete(ms, rs, ticket) ==> Complete(ms, rs + [r], ticket)
    ensures r.ticket != ticket ==> (Complete(ms, rs, ticket) <==> Complete(ms, rs + [r], ticket))
    ensures Mentioned(rs + [r], ticket) <==> Mentioned(rs, ticket) || r.ticket == ticket
  {
    hide Answered, FirstAnswer;
    AnsweredSnoc(rs, r, ticket, 0);
    forall i | 0 <= i < |ms|
      ensures Answered(rs, ticket, ms[i].id) ==> Answered(rs + [r], ticket, ms[i].id)
      ensures r.ticket != ticket ==> (Answered(rs, ticket, ms[i].id) <==> Answered(rs + [r], ticket, ms[i].id))
    {
      AnsweredSnoc(rs, r, ticket, ms[i].id);
    }
  }

  // fulfill returns 1 for the reply that completes the broadcast and 0 for every other one, before and
  // after; the result holds the first answers in the order of sending, and the ticket is gone.
  lemma GatherCompletesOnce(n: Node, ms: seq<Message>, rs: seq<Reply>, ticket: int, k: nat)
    requires k < |rs| && rs[k].ticket == ticket
    requires Broadcast(n, ms, rs, ticket) && CanFulfillAll(n, rs[..k + 1])
    ensures var outcome := OutcomeAt(n, rs, k);
            && (outcome.status == 1 <==> Complete(ms, rs[..k + 1], ticket) && !Complete(ms, rs[..k], ticket))
            && (outcome.status == 0 || outcome.status == 1)
            && (outcome.status == 1 ==> outcome.response == BatchText(FirstAnswers(ms, rs[..k + 1], ticket)))
            && (Complete(ms, rs[..k + 1], ticket) ==> ticket !in outcome.node.brokers)
  {
    hide FirstAnswer, BatchText, Received;
    var front, r := rs[..k], rs[k];
    assert rs[..k + 1] == front + [r] && rs[..k + 1][..k] == front;
    TicketAfter(n, ms, front, ticket);
    CompleteSnoc(ms, front, r, ticket);
    ReceivedSnoc(ms, front, r, ticket);
    ReceivedAll(ms, front + [r], ticket);
    if Complete(ms, front + [r], ticket) {
      ResponsesReceived(ms, front + [r], ticket);
    }
  }

  lemma ResponsesReceived(ms: seq<Message>, rs: seq<Reply>, ticket: int)
    requires Complete(ms, rs, ticket)
    ensures Responses(Received(ms, rs, ticket)) == FirstAnswers(ms, rs, ticket)
  {
  }

  // Of the replies up to completion and beyond, exactly one completes.
  lemma {:induction false} CompletedByOneReply(ms: seq<Message>, rs: seq<Reply>, ticket: int)
    requires Complete(ms, rs, ticket)
    ensures exists k | 0 <= k < |rs| :: Completes(ms, rs, ticket, k)
    ensures forall j, k | 0 <= j < |rs| && 0 <= k < |rs| ::
              Completes(ms, rs, ticket, j) && Completes(ms, rs, ticket, k) ==> j == k
    decreases |rs|
  {
    var front := rs[..|rs| - 1];
    assert rs == front + [rs[|rs| - 1]];
    CompleteSnoc(ms, front, rs[|rs| - 1], ticket);
    if Complete(ms, front, ticket) {
      CompletedByOneReply(ms, front, ticket);
      var k :| 0 <= k < |front| && Completes(ms, front, ticket, k);
      assert rs[..k] == front[..k] && rs[..k + 1] == front[..k + 1];
      assert Completes(ms, rs, ticket, k);
    } else {
      assert rs[..|rs|] == rs && rs[..|rs| - 1] == front;
      assert Completes(ms, rs, ticket, |rs| - 1);
    }
    forall j, k | 0 <= j < k < |rs| && Completes(ms, rs, ticket, j)
      ensures Complete(ms, rs[..k], ticket)
    {
      CompleteStays(ms, rs, ticket, j + 1, k);
    }
  }

  predicate Completes(ms: seq<Message>, rs: seq<Reply>, ticket: int, k: nat)
    requires k < |rs|
  {
    Complete(ms, rs[..k + 1], ticket) && !Complete(ms, rs[..k], ticket)
  }

  lemma {:induction false} CompleteStays(ms: seq<Message>, rs: seq<Reply>, ticket: int, j: nat, k: nat)
    requires j <= k <= |rs| && Complete(ms, rs[..j], ticket)
    ensures Complete(ms, rs[..k], ticket)
    decreases k - j
  {
    if j < k {
      assert rs[..j + 1] == rs[..j] + [rs[j]];
      CompleteSnoc(ms, rs[..j], rs[j], ticket);
      CompleteStays(ms, rs, ticket, j + 1, k);
    }
  }

  lemma {:induction false} PrefixCanFulfill(n: Node, rs: seq<Reply>, k: nat)
    requires k <= |rs| && CanFulfillAll(n, rs)
    ensures CanFulfillAll(n, rs[..k])
    decreases |rs|
  {
    if k < |rs| {
      PrefixCanFulfill(n, rs[..|rs| - 1], k);
      assert rs[..|rs| - 1][..k] == rs[..k];
    } else {
      assert rs[..k] == rs;
    }
  }

  // fulfill returns 1 for the reply at k.
  predicate Delivers(n: Node, rs: seq<Reply>, ticket: int, k: nat)
  {
    k < |rs| && rs[k].ticket == ticket && CanFulfillAll(n, rs[..k + 1]) && OutcomeAt(n, rs, k).status == 1
  }

  // In every run in which each message is answered at last, fulfill returns 1 for this ticket exactly
  // once.
  lemma BroadcastDeliversOnce(n: Node, ms: seq<Message>, rs: seq<Reply>, ticket: int)
    requires Broadcast(n, ms, rs, ticket) && CanFulfillAll(n, rs) && Complete(ms, rs, ticket)
    ensures exists k :: Delivers(n, rs, ticket, k)
    ensures forall j, k | Delivers(n, rs, ticket, j) && Delivers(n, rs, ticket, k) :: j == k
  {
    hide NodeAfter, OutcomeAt;
    CompletedByOneReply(ms, rs, ticket);
    forall k: nat | k < |rs|
      ensures Delivers(n, rs, ticket, k) <==> Completes(ms, rs, ticket, k)
    {
      PrefixCanFulfill(n, rs, k + 1);
      assert rs[..k + 1] == rs[..k] + [rs[k]];
      CompleteSnoc(ms, rs[..k], rs[k], ticket);
      if rs[k].ticket == ticket {
        GatherCompletesOnce(n, ms, rs, ticket, k);
      }
    }
    var k :| 0 <= k < |rs| && Completes(ms, rs, ticket, k);
    assert Delivers(n, rs, ticket, k);
  }

  // ---------------------------------------------------------------- order

  // Whether fulfill can take each reply does not depend on the order.
  predicate CanFulfillEach(n: Node, rs: seq<Reply>)
  {
    forall k | 0 <= k < |rs| :: CanFulfill(n, rs[k])
  }

  // No call of fulfill adds a ticket or takes all messages from one.
  lemma {:induction false} TicketsStay(n: Node, rs: seq<Reply>, ticket: int)
    requires CanFulfillAll(n, rs) && ticket in NodeAfter(n, rs).brokers
    ensures ticket in n.brokers && |NodeAfter(n, rs).brokers[ticket]| == |n.brokers[ticket]|
    decreases |rs|
  {
    hide BatchText;
    if rs != [] {
      TicketsStay(n, rs[..|rs| - 1], ticket);
    }
  }

  lemma {:induction false} EachMeansAll(n: Node, rs: seq<Reply>)
    requires CanFulfillEach(n, rs)
    ensures CanFulfillAll(n, rs)
    decreases |rs|
  {
    hide NodeAfter;
    if rs != [] {
      var front, r := rs[..|rs| - 1], rs[|rs| - 1];
      EachMeansAll(n, front);
      if r.ticket in NodeAfter(n, front).brokers {
        TicketsStay(n, front, r.ticket);
      }
    }
  }

  // The response fulfill delivers for the ticket in the course of a run, if any.
  function Delivery(n: Node, rs: seq<Reply>, ticket: int): Option<string>
    requires CanFulfillAll(n, rs)
    decreases |rs|
  {
    if rs == [] then None
    else
      var k := |rs| - 1;
      assert rs[..k + 1] == rs;
      if Delivers(n, rs, ticket, k) then Some(OutcomeAt(n, rs, k).response) else Delivery(n, rs[..k], ticket)
  }

  lemma {:induction false} DeliveryIs(n: Node, ms: seq<Message>, rs: seq<Reply>, ticket: int)
    requires Broadcast(n, ms, rs, ticket) && CanFulfillAll(n, rs)
    ensures Delivery(n, rs, ticket)
         == if Complete(ms, rs, ticket) then Some(BatchText(FirstAnswers(ms, rs, ticket))) else None
    decreases |rs|
  {
    hide OutcomeAt, NodeAfter, Fulfill, BatchText, FirstAnswers, Complete, Broadcast;
    if rs == [] {
      assert !Complete(ms, rs, ticket) by { NotMentioned(ms, ticket); }
    } else {
      var k := |rs| - 1;
      var front := rs[..k];
      assert rs[..k + 1] == rs && rs == front + [rs[k]];
      FrontIsBroadcast(n, ms, rs, ticket, k);
      DeliveryIs(n, ms, front, ticket);
      CompleteSnoc(ms, front, rs[k], ticket);
      if rs[k].ticket == ticket {
        GatherCompletesOnce(n, ms, rs, ticket, k);
      }
      if Complete(ms, front, ticket) {
        FirstAnswersStay(ms, front, rs[k], ticket);
      }
    }
  }

  lemma NotMentioned(ms: seq<Message>, ticket: int)
    ensures !Complete(ms, [], ticket)
  {
  }

  lemma FrontIsBroadcast(n: Node, ms: seq<Message>, rs: seq<Reply>, ticket: int, k: nat)
    requires Broadcast(n, ms, rs, ticket) && CanFulfillAll(n, rs) && k <= |rs|
    ensures Broadcast(n, ms, rs[..k], ticket) && CanFulfillAll(n, rs[..k])
  {
    PrefixCanFulfill(n, rs, k);
  }

  // Later replies do not change the first answers.
  lemma FirstAnswersStay(ms: seq<Message>, rs: seq<Reply>, r: Reply, ticket: int)
    requires Complete(ms, rs, ticket)
    ensures Complete(ms, rs + [r], ticket) && FirstAnswers(ms, rs + [r], ticket) == FirstAnswers(ms, rs, ticket)
  {
    hide FirstAnswer, Answered;
    CompleteSnoc(ms, rs, r, ticket);
    forall i | 0 <= i < |ms|
      ensures FirstAnswer(rs + [r], ticket, ms[i].id) == FirstAnswer(rs, ticket, ms[i].id)
    {
      AnsweredSnoc(rs, r, ticket, ms[i].id);
    }
  }

  // Any two answers to the same message of the ticket have the same content.
  predicate AnswersAgree(ms: seq<Message>, rs: seq<Reply>, ticket: int)
  {
    forall i, j, k | 0 <= i < |ms| && 0 <= j < |rs| && 0 <= k < |rs| ::
      Answers(rs[j], ticket, ms[i].id) && Answers(rs[k], ticket, ms[i].id) ==> rs[j].content == rs[k].content
  }

  // The first answer is the content of some answer.
  lemma {:induction false} FirstAnswerAmong(rs: seq<Reply>, ticket: int, id: int) returns (k: nat)
    requires Answered(rs, ticket, id)
    ensures k < |rs| && Answers(rs[k], ticket, id) && FirstAnswer(rs, ticket, id) == rs[k].content
    decreases |rs|
  {
    var n := |rs| - 1;
    if Answered(rs[..n], ticket, id) {
      k := FirstAnswerAmong(rs[..n], ticket, id);
    } else {
      k := n;
    }
  }

  lemma Find(rs: seq<Reply>, other: seq<Reply>, k: nat) returns (j: nat)
    requires multiset(rs) == multiset(other) && k < |rs|
    ensures j < |other| && other[j] == rs[k]
  {
    assert rs[k] in multiset(other);
    j :| j < |other| && other[j] == rs[k];
  }

  lemma CompleteInAnyOrder(ms: seq<Message>, rs: seq<Reply>, other: seq<Reply>, ticket: int)
    requires multiset(rs) == multiset(other) && Complete(ms, rs, ticket)
    ensures Complete(ms, other, ticket)
  {
    var m :| 0 <= m < |rs| && rs[m].ticket == ticket;
    var _ := Find(rs, other, m);
    forall i | 0 <= i < |ms|
      ensures Answered(other, ticket, ms[i].id)
    {
      var k :| 0 <= k < |rs| && Answers(rs[k], ticket, ms[i].id);
      var _ := Find(rs, other, k);
    }
  }

  lemma AgreeingAnswers(ms: seq<Message>, rs: seq<Reply>, other: seq<Reply>, ticket: int)
    requires multiset(rs) == multiset(other) && Complete(ms, rs, ticket) && AnswersAgree(ms, rs, ticket)
    ensures Complete(ms, other, ticket) && FirstAnswers(ms, rs, ticket) == FirstAnswers(ms, other, ticket)
  {
    CompleteInAnyOrder(ms, rs, other, ticket);
    forall i | 0 <= i < |ms|
      ensures FirstAnswer(rs, ticket, ms[i].id) == FirstAnswer(other, ticket, ms[i].id)
    {
      var j := FirstAnswerAmong(rs, ticket, ms[i].id);
      var k := FirstAnswerAmong(other, ticket, ms[i].id);
      var l := Find(other, rs, k);
    }
  }

  // The same replies with the one at k in front.
  function Promoted(rs: seq<Reply>, k: nat): (r: seq<Reply>)
    requires k < |rs|
    ensures |r| == |rs| && multiset(r) == multiset(rs)
  {
    assert rs == rs[..k] + [rs[k]] + rs[k + 1..];
    [rs[k]] + rs[..k] + rs[k + 1..]
  }

  lemma {:induction false} InFrontIsFirst(rs: seq<Reply>, ticket: int, id: int)
    requires |rs| > 0 && Answers(rs[0], ticket, id)
    ensures Answered(rs, ticket, id) && FirstAnswer(rs, ticket, id) == rs[0].content
    decreases |rs|
  {
    if |rs| > 1 {
      InFrontIsFirst(rs[..|rs| - 1], ticket, id);
    }
  }

  // An answer that differs from the first one is what another order delivers.
  lemma DifferentAnswerShows(ms: seq<Message>, rs: seq<Reply>, ticket: int, i: nat, k: nat)
    requires Complete(ms, rs, ticket) && i < |ms| && k < |rs| && Answers(rs[k], ticket, ms[i].id)
    requires rs[k].content != FirstAnswer(rs, ticket, ms[i].id)
    ensures Complete(ms, Promoted(rs, k), ticket)
    ensures FirstAnswers(ms, Promoted(rs, k), ticket) != FirstAnswers(ms, rs, ticket)
  {
    var other := Promoted(rs, k);
    CompleteInAnyOrder(ms, rs, other, ticket);
    InFrontIsFirst(other, ticket, ms[i].id);
    assert FirstAnswers(ms, other, ticket)[i] != FirstAnswers(ms, rs, ticket)[i];
  }

  lemma {:induction false} OrderKeepsBroadcast(
    n: Node, ms: seq<Message>, rs: seq<Reply>, other: seq<Reply>, ticket: int)
    requires multiset(rs) == multiset(other) && Broadcast(n, ms, rs, ticket) && CanFulfillEach(n, rs)
    ensures Broadcast(n, ms, other, ticket) && CanFulfillEach(n, other) && CanFulfillAll(n, other)
  {
    forall k | 0 <= k < |other|
      ensures CanFulfill(n, other[k])
      ensures other[k].ticket == ticket ==> other[k].brokerType == "broadcast" && other[k].callback.None?
    {
      var j := Find(other, rs, k);
    }
    EachMeansAll(n, other);
  }

  // What fulfill delivers for a broadcast that is answered in full is the same in every order of
  // arrival exactly when no message has two different answers.
  lemma {:induction false} OrderMattersExactlyForDifferentAnswers(
    n: Node, ms: seq<Message>, rs: seq<Reply>, ticket: int)
    requires Broadcast(n, ms, rs, ticket) && CanFulfillEach(n, rs) && Complete(ms, rs, ticket)
    ensures CanFulfillAll(n, rs)
    ensures AnswersAgree(ms, rs, ticket)
       <==> forall other | multiset(other) == multiset(rs) ::
              CanFulfillAll(n, other) && Delivery(n, other, ticket) == Delivery(n, rs, ticket)
  {
    hide Delivery, BatchText, FirstAnswers, NodeAfter, Complete, CanFulfillAll;
    EachMeansAll(n, rs);
    DeliveryIs(n, ms, rs, ticket);
    if AnswersAgree(ms, rs, ticket) {
      forall other | multiset(other) == multiset(rs)
        ensures CanFulfillAll(n, other) && Delivery(n, other, ticket) == Delivery(n, rs, ticket)
      {
        OrderKeepsBroadcast(n, ms, rs, other, ticket);
        AgreeingAnswers(ms, rs, other, ticket);
        DeliveryIs(n, ms, other, ticket);
      }
    } else {
      var k := DisagreeingOrder(n, ms, rs, ticket);
      assert multiset(Promoted(rs, k)) == multiset(rs);
    }
  }

  // The order that shows it: some answer moved to the front.
  lemma DisagreeingOrder(n: Node, ms: seq<Message>, rs: seq<Reply>, ticket: int) returns (k: nat)
    requires Broadcast(n, ms, rs, ticket) && CanFulfillEach(n, rs) && Complete(ms, rs, ticket) && CanFulfillAll(n, rs)
    requires !AnswersAgree(ms, rs, ticket)
    ensures k < |rs| && CanFulfillAll(n, Promoted(rs, k))
    ensures Delivery(n, Promoted(rs, k), ticket).Some?
            && Delivery(n, Promoted(rs, k), ticket) != Delivery(n, rs, ticket)
  {
    hide Delivery, BatchText, FirstAnswers, NodeAfter, CanFulfillAll;
    var i, j, l :| 0 <= i < |ms| && 0 <= j < |rs| && 0 <= l < |rs|
      && Answers(rs[j], ticket, ms[i].id) && Answers(rs[l], ticket, ms[i].id) && rs[j].content != rs[l].content;
    k := if rs[j].content != FirstAnswer(rs, ticket, ms[i].id) then j else l;
    var other := Promoted(rs, k);
    DifferentAnswerShows(ms, rs, ticket, i, k);
    OrderKeepsBroadcast(n, ms, rs, other, ticket);
    DeliveryIs(n, ms, rs, ticket);
    DeliveryIs(n, ms, other, ticket);
    var a, b := FirstAnswers(ms, rs, ticket), FirstAnswers(ms, other, ticket);
    if BatchText(a) == BatchText(b) {
      TextTellsResponses(a, b);
    }
  }

  // One message answered twice, differently: the first answer wins.
  lemma TwoAnswersToOneMessage()
    ensures var n := Node(map[0 := [Message(0, "u", 0, "undefined", 0.0)]], map[]);
            var (a, b) := (Reply(0, "broadcast", 0, "a", None), Reply(0, "broadcast", 0, "b", None));
            && CanFulfillAll(n, [a, b]) && CanFulfillAll(n, [b, a])
            && Delivery(n, [a, b], 0) == Some(BatchText([Response("u", "a")]))
            && Delivery(n, [b, a], 0) == Some(BatchText([Response("u", "b")]))
  {
    var m := Message(0, "u", 0, "undefined", 0.0);
    var n := Node(map[0 := [m]], map[]);
    var (a, b) := (Reply(0, "broadcast", 0, "a", None), Reply(0, "broadcast", 0, "b", None));
    FirstOfTwo(n, m, a, b);
    FirstOfTwo(n, m, b, a);
  }

  lemma FirstOfTwo(n: Node, m: Message, a: Reply, b: Reply)
    requires n.brokers == map[0 := [m]] && m.fulfilled == 0 && m.id == 0
    requires a.ticket == b.ticket == a.messageId == b.messageId == 0
    requires a.brokerType == b.brokerType == "broadcast" && a.callback.None? && b.callback.None?
    ensures CanFulfillAll(n, [a, b]) && Delivery(n, [a, b], 0) == Some(BatchText([Response(m.url, a.content)]))
  {
    hide BatchText, Delivery;
    var rs := [a, b];
    assert CanFulfillEach(n, rs);
    EachMeansAll(n, rs);
    assert Answers(rs[0], 0, 0);
    InFrontIsFirst(rs, 0, 0);
    DeliveryIs(n, [m], rs, 0);
    assert FirstAnswers([m], rs, 0) == [Response(m.url, a.content)];
  }

  // ---------------------------------------------------------------- the text of the result

  // The parser of picojson recovers the result, and with it every url and answer.
  lemma BatchParses(rs: seq<Response>, command: string)
    ensures J.ParseValue(BatchText(rs, command), J.MAX_DEPTHS) == Done(BatchValue(rs, command), "")
  {
    var v := BatchValue(rs, command);
    BatchPrintable(rs, command);
    BatchOrdered(rs, command);
    JsonRoundTrip.ParseInvertsSerialize(v, false, J.MAX_DEPTHS);
  }

  lemma KeysOrdered()
    ensures J.Less("command", "responses") && J.Less("responses", "status") && J.Less("command", "status")
    ensures J.Less("message", "status") && J.Less("status", "url") && J.Less("message", "url")
  {
  }

  lemma BatchOrdered(rs: seq<Response>, command: string)
    ensures J.Ordered(BatchValue(rs, command)) && J.Fits(BatchValue(rs, command), J.MAX_DEPTHS)
  {
    hide J.Less;
    KeysOrdered();
    forall i | 0 <= i < |rs|
      ensures J.Ordered(EntryOf(rs[i])) && J.Fits(EntryOf(rs[i]), J.MAX_DEPTHS - 1)
    {
      EntryOrdered(rs[i]);
    }
  }

  lemma EntryOrdered(r: Response)
    ensures J.Ordered(EntryOf(r)) && J.Fits(EntryOf(r), J.MAX_DEPTHS - 1)
  {
    hide J.Less;
    KeysOrdered();
  }

  lemma TextTellsResponses(a: seq<Response>, b: seq<Response>)
    requires BatchText(a) == BatchText(b)
    ensures a == b
  {
    BatchParses(a, "null");
    BatchParses(b, "null");
    var va, vb := BatchValue(a, "null"), BatchValue(b, "null");
    assert va.members[1].value.items == vb.members[1].value.items;
    forall i | 0 <= i < |a|
      ensures i < |b| && a[i] == b[i]
    {
      assert va.members[1].value.items[i] == EntryOf(a[i]) && vb.members[1].value.items[i] == EntryOf(b[i]);
      assert EntryOf(a[i]).members[0] == EntryOf(b[i]).members[0];
      assert EntryOf(a[i]).members[2] == EntryOf(b[i]).members[2];
    }
  }
}
