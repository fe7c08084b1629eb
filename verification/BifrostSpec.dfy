// Bifrost: the tickets a node waits for, and what a reply does to them (core/src/message/bifrost.cc).
module BifrostSpec {
  import opened Common
  import J = JsonSpec

  // fulfilled is 0 until a reply has come. latency is what the last fetch of the message measured.
  datatype Message = Message(id: int, url: string, fulfilled: int, received: string, latency: real)

  datatype Callback = Callback(
    url: string, endpoint: string, kind: string, satellite: bool, fn: string, count: int, limit: int, resolved: bool)

  // A job that has arrived, with the headers fulfill looks at.
  datatype Reply = Reply(
    ticket: int, brokerType: string, messageId: int, content: string, callback: Option<Callback>)

  datatype Node = Node(brokers: map<int, seq<Message>>, latencies: map<int, seq<real>>)

  // status is what fulfill returns. mean is set when the content of the job is replaced by an average.
  datatype Fulfillment = Fulfillment(
    node: Node, status: int, response: string, callback: Option<Callback>, mean: Option<real>)

  // ---------------------------------------------------------------- one reply

  function Mark(m: Message, id: int, content: string): Message
  {
    if m.fulfilled == 0 && m.id == id then m.(fulfilled := 1, received := content) else m
  }

  function MarkAll(ms: seq<Message>, id: int, content: string): (r: seq<Message>)
    ensures |r| == |ms|
  {
    seq(|ms|, i requires 0 <= i < |ms| => Mark(ms[i], id, content))
  }

  predicate AllFulfilled(ms: seq<Message>)
  {
    forall i | 0 <= i < |ms| :: ms[i].fulfilled != 0
  }

  // One entry a message, in the order they were sent.
  datatype Response = Response(url: string, content: string)

  function Responses(ms: seq<Message>): (r: seq<Response>)
    ensures |r| == |ms|
  {
    seq(|ms|, i requires 0 <= i < |ms| => Response(ms[i].url, ms[i].received))
  }

  function EntryOf(r: Response): J.Value
  {
    J.Object([J.Member("message", J.String(r.content)), J.Member("status", J.String("200")),
              J.Member("url", J.String(r.url))])
  }

  function BatchValue(rs: seq<Response>, command: string): J.Value
  {
    var entries := seq(|rs|, i requires 0 <= i < |rs| => EntryOf(rs[i]));
    J.Object([J.Member("command", J.String(command)), J.Member("responses", J.Array(entries)),
              J.Member("status", J.String("200"))])
  }

  // batch_serialize
  function BatchText(rs: seq<Response>, command: string := "null"): string
  {
    BatchPrintable(rs, command);
    J.Text(BatchValue(rs, command), false)
  }

  lemma BatchPrintable(rs: seq<Response>, command: string)
    ensures J.Printable(BatchValue(rs, command))
  {
    forall i | 0 <= i < |rs|
      ensures J.Printable(EntryOf(rs[i]))
    {
      assert forall m :: m in EntryOf(rs[i]).members ==> J.Printable(m.value);
    }
  }

  function Sum(samples: seq<real>): real
  {
    if |samples| == 0 then 0.0 else Sum(samples[..|samples| - 1]) + samples[|samples| - 1]
  }

  function Mean(samples: seq<real>): real
    requires |samples| > 0
  {
    Sum(samples) / |samples| as real
  }

  function LatenciesOf(n: Node, ticket: int): seq<real>
  {
    if ticket in n.latencies then n.latencies[ticket] else []
  }

  function Forget(n: Node, ticket: int): Node
  {
    n.(brokers := n.brokers - {ticket})
  }

  // The ricochet branch, on the callback: which way it travels is counted at one of the two ends.
  function Bounced(cb: Callback): Callback
  {
    if cb.count != cb.limit then
      cb.(count := if cb.satellite then cb.count else cb.count + 1, satellite := !cb.satellite)
    else cb.(resolved := true)
  }

  // The ricochet branch reads the first message of the ticket.
  predicate CanFulfill(n: Node, r: Reply)
  {
    r.brokerType == "ricochet" && r.callback.Some? && !r.callback.value.resolved && r.ticket in n.brokers ==>
      n.brokers[r.ticket] != []
  }

  function Fulfill(n: Node, r: Reply): Fulfillment
    requires CanFulfill(n, r)
  {
    if r.ticket !in n.brokers then Fulfillment(n, 0, "", r.callback, None)
    else
      var ms := n.brokers[r.ticket];
      if r.callback.Some? && r.callback.value.resolved then
        Fulfillment(Forget(n, r.ticket), 2, "", None, None)
      else if r.brokerType == "simple" && r.callback.None? then
        Fulfillment(Forget(n, r.ticket), 1, r.content, None, None)
      else if r.brokerType == "broadcast" && r.callback.None? then
        var marked := MarkAll(ms, r.messageId, r.content);
        if AllFulfilled(marked) then
          Fulfillment(Forget(n, r.ticket), 1, BatchText(Responses(marked)), None, None)
        else
          Fulfillment(n.(brokers := n.brokers[r.ticket := marked]), 0, "", None, None)
      else if r.brokerType == "ricochet" && r.callback.Some? then
        var cb := r.callback.value;
        var samples := LatenciesOf(n, r.ticket) + [ms[0].latency];
        Fulfillment(n.(latencies := n.latencies[r.ticket := samples]), 2, "", Some(Bounced(cb)),
                    if cb.count == cb.limit && cb.fn == "AVG" then Some(Mean(samples)) else None)
      else Fulfillment(n, 0, "", r.callback, None)
  }

  // ---------------------------------------------------------------- many replies

  predicate CanFulfillAll(n: Node, rs: seq<Reply>)
    decreases |rs|, 0
  {
    rs == [] || (CanFulfillAll(n, rs[..|rs| - 1]) && CanFulfill(NodeAfter(n, rs[..|rs| - 1]), rs[|rs| - 1]))
  }

  function NodeAfter(n: Node, rs: seq<Reply>): Node
    requires CanFulfillAll(n, rs)
    decreases |rs|, 1
  {
    if rs == [] then n else Fulfill(NodeAfter(n, rs[..|rs| - 1]), rs[|rs| - 1]).node
  }

  // What the call for the reply at k returns.
  function OutcomeAt(n: Node, rs: seq<Reply>, k: nat): Fulfillment
    requires k < |rs| && CanFulfillAll(n, rs[..k + 1])
  {
    assert rs[..k + 1][..k] == rs[..k];
    Fulfill(NodeAfter(n, rs[..k]), rs[k])
  }
}
