// core/src/message/bifrost.cc, the callback of core/include/jericho/message/callback2.h and the
// handlers of a ricochet in core/include/jericho/api/fl_api.h.
module Bifrosts {
  import opened Common
  import opened JsonText
  import J = JsonSpec
  import JsonSerializer = Json
  import S = BifrostSpec
  import C = CallbackSpec
  import BifrostRicochet

  class MessageBuffer {
    const id: int
    const url: string
    var ticket: int
    var fulfilled: int
    var received: string
    var latency: real
    var sent: string
    var headers: map<string, string>

    // Bifrost::buffer, for a url that is an address.
    constructor (id: int, url: string)
      ensures View() == S.Message(id, url, 0, "undefined", 0.0) && headers == map[] && ticket == -1
    {
      this.id, this.url := id, url;
      ticket, fulfilled, received, latency, sent, headers := -1, 0, "undefined", 0.0, "undefined", map[];
    }

    ghost function View(): S.Message
      reads this
    {
      S.Message(id, url, fulfilled, received, latency)
    }
  }

  ghost function Views(ms: seq<MessageBuffer>): (r: seq<S.Message>)
    reads ms
    ensures |r| == |ms|
  {
    seq(|ms|, i requires 0 <= i < |ms| reads ms => ms[i].View())
  }

  ghost function MessagesOf(brokers: map<int, seq<MessageBuffer>>, owned: set<MessageBuffer>): map<int, seq<S.Message>>
    requires forall t | t in brokers :: forall m | m in brokers[t] :: m in owned
    reads owned
  {
    map t | t in brokers :: Views(brokers[t])
  }

  class Callback {
    var url: string
    var endpoint: string
    var kind: string
    var satellite: bool
    var fn: string
    var count: int
    var limit: int
    var resolved: bool

    constructor (url: string, endpoint: string, kind: string, satellite: bool, fn: string, count: int, limit: int)
      ensures View() == S.Callback(url, endpoint, kind, satellite, fn, count, limit, false)
    {
      this.url, this.endpoint, this.kind, this.satellite := url, endpoint, kind, satellite;
      this.fn, this.count, this.limit, this.resolved := fn, count, limit, false;
    }

    ghost function View(): S.Callback
      reads this
    {
      S.Callback(url, endpoint, kind, satellite, fn, count, limit, resolved)
    }

    // One more way travelled, or the end.
    method Bounce()
      modifies this
      ensures View() == S.Bounced(old(View()))
    {
      if count != limit {
        if !satellite {
          count := count + 1;
        }
        satellite := !satellite;
      } else {
        resolved := true;
      }
    }

    method Serialize(buf: MessageBuffer)
      modifies buf`headers
      ensures buf.headers == old(buf.headers) + C.CallbackHeaders(View())
    {
      var m := buf.headers;
      m := m["Callback-Url" := url];
      m := m["Callback-Endpoint" := endpoint];
      m := m["Callback-Type" := kind];
      m := m["Callback-Satellite" := C.FlagText(satellite)];
      m := m["Callback-Fn" := fn];
      m := m["Callback-Count" := Decimal(count)];
      m := m["Callback-Limit" := Decimal(limit)];
      m := m["Callback-Resolved" := C.FlagText(resolved)];
      buf.headers := m;
    }
  }

  // std::stoi, for a text it does not refuse.
  function Number(s: string): int
  {
    match C.Stoi(s)
    case Some(n) => n
    case None => 0
  }

  // A job as the parser of requests leaves it: the headers Ticket, Broker-Type and Message-Id, the
  // content and the callback. mean holds the average that replaces the content.
  class Job {
    const ticket: string
    const brokerType: string
    const messageId: string
    const content: string
    var callback: Callback?
    var mean: Option<real>

    constructor (ticket: string, brokerType: string, messageId: string, content: string, callback: Callback?)
      ensures this.ticket == ticket && this.brokerType == brokerType && this.messageId == messageId
      ensures this.content == content && this.callback == callback && mean == None
    {
      this.ticket, this.brokerType, this.messageId, this.content := ticket, brokerType, messageId, content;
      this.callback, this.mean := callback, None;
    }

    // The headers fulfill reads are numbers; std::stoi ends the program otherwise.
    predicate Numbered()
    {
      C.Stoi(ticket).Some? && (brokerType == "broadcast" ==> C.Stoi(messageId).Some?)
    }

    ghost function View(): S.Reply
      reads this, callback
    {
      S.Reply(Number(ticket), brokerType, Number(messageId), content,
              if callback == null then None else Some(callback.View()))
    }
  }

  // ---------------------------------------------------------------- batch_serialize

  method BatchSerialize(responses: seq<S.Response>, command: string) returns (text: string)
    ensures text == S.BatchText(responses, command)
  {
    hide J.Body, J.Insert;
    var entries: seq<J.Value> := [];
    var i := 0;
    while i < |responses|
      invariant i <= |responses|
      invariant entries == seq(i, k requires 0 <= k < i => S.EntryOf(responses[k]))
    {
      var subo: seq<J.Member> := [];
      subo := J.Insert(subo, "status", J.String("200"));
      subo := J.Insert(subo, "message", J.String(responses[i].content));
      subo := J.Insert(subo, "url", J.String(responses[i].url));
      EntryInserted(responses[i]);
      entries := entries + [J.Object(subo)];
      i := i + 1;
    }
    var o: seq<J.Member> := [];
    o := J.Insert(o, "responses", J.Array(entries));
    o := J.Insert(o, "command", J.String(command));
    o := J.Insert(o, "status", J.String("200"));
    BatchInserted(entries, command);
    S.BatchPrintable(responses, command);
    var oi := new JsonSerializer.Output();
    JsonSerializer.Serialize(J.Object(o), -1, oi);
    text := oi.text;
    assert J.Body(J.Object(o), -1) + "" == J.Body(J.Object(o), -1);
  }

  lemma EntryInserted(r: S.Response)
    ensures var o := J.Insert(J.Insert([], "status", J.String("200")), "message", J.String(r.content));
            J.Object(J.Insert(o, "url", J.String(r.url))) == S.EntryOf(r)
  {
    var status, message, url := J.Member("status", J.String("200")), J.Member("message", J.String(r.content)),
      J.Member("url", J.String(r.url));
    assert J.Less("message", "status") && !J.Less("url", "message") && !J.Less("url", "status");
    assert J.Insert([], "status", J.String("200")) == [status];
    assert J.Insert([status], "message", J.String(r.content)) == [message, status];
    assert J.Insert([status], "url", J.String(r.url)) == [status, url];
    assert [message, status][1..] == [status];
  }

  lemma BatchInserted(entries: seq<J.Value>, command: string)
    ensures var o := J.Insert(J.Insert([], "responses", J.Array(entries)), "command", J.String(command));
            J.Insert(o, "status", J.String("200"))
            == [J.Member("command", J.String(command)), J.Member("responses", J.Array(entries)),
                J.Member("status", J.String("200"))]
  {
    var responses, c, status := J.Member("responses", J.Array(entries)), J.Member("command", J.String(command)),
      J.Member("status", J.String("200"));
    assert J.Less("command", "responses") && !J.Less("status", "command") && !J.Less("status", "responses");
    assert J.Insert([], "responses", J.Array(entries)) == [responses];
    assert J.Insert([responses], "command", J.String(command)) == [c, responses];
    assert J.Insert([responses], "status", J.String("200")) == [responses, status];
    assert [c, responses][1..] == [responses];
  }

  // ---------------------------------------------------------------- Bifrost

  class Bifrost {
    var brokers: map<int, seq<MessageBuffer>>
    var latencies: map<int, seq<real>>
    var ticketId: int
    var messageId: int

    // The messages handed to the thread pool.
    var dispatched: seq<MessageBuffer>

    // Which urls the parser of urls takes for addresses.
    const isAddress: string -> bool

    constructor (isAddress: string -> bool)
      ensures Valid() && View() == S.Node(map[], map[]) && ticketId == -1 && messageId == -1 && dispatched == []
      ensures this.isAddress == isAddress
    {
      this.isAddress := isAddress;
      brokers, latencies, ticketId, messageId, dispatched, owned := map[], map[], -1, -1, [], {};
    }

    // All messages of all tickets.
    ghost var owned: set<MessageBuffer>

    // No message belongs to two tickets.
    ghost predicate Valid()
      reads this
    {
      && (forall t | t in brokers :: Distinct(brokers[t]) && forall m | m in brokers[t] :: m in owned)
      && (forall t, u, m | t in brokers && u in brokers && m in brokers[t] && m in brokers[u] :: t == u)
    }

    ghost function View(): S.Node
      requires Valid()
      reads this, owned
    {
      S.Node(MessagesOf(brokers, owned), latencies)
    }

    // The loop of the broadcast branch over the messages of a ticket.
    method Collect(ms: seq<MessageBuffer>, messageId: int, content: string)
      returns (allFulfilled: bool, responses: seq<S.Response>)
      requires Distinct(ms)
      modifies ms
      ensures Views(ms) == S.MarkAll(old(Views(ms)), messageId, content)
      ensures allFulfilled == S.AllFulfilled(Views(ms))
      ensures allFulfilled ==> responses == S.Responses(Views(ms))
    {
      ghost var before := Views(ms);
      ghost var after := S.MarkAll(before, messageId, content);
      allFulfilled, responses := true, [];
      var i := 0;
      while i < |ms|
        invariant i <= |ms|
        invariant forall k | 0 <= k < i :: ms[k].View() == after[k]
        invariant forall k | i <= k < |ms| :: ms[k].View() == before[k]
        invariant allFulfilled == forall k | 0 <= k < i :: after[k].fulfilled != 0
        invariant allFulfilled ==> responses == S.Responses(after[..i])
      {
        var m := ms[i];
        if m.fulfilled == 0 {
          if m.id == messageId {
            m.fulfilled := 1;
            m.received := content;
            responses := responses + [S.Response(m.url, m.received)];
          } else {
            allFulfilled := false;
          }
        } else {
          responses := responses + [S.Response(m.url, m.received)];
        }
        assert m.View() == after[i];
        assert after[..i + 1] == after[..i] + [after[i]];
        i := i + 1;
      }
      assert after[..i] == after && Views(ms) == after;
    }

    // The broadcast branch of fulfill, as it changes the node.
    method Gather(ticket: int, messageId: int, content: string) returns (allFulfilled: bool, responses: seq<S.Response>)
      requires Valid() && ticket in brokers
      modifies brokers[ticket]
      ensures Valid()
      ensures var marked := S.MarkAll(old(View()).brokers[ticket], messageId, content);
              && View() == old(View()).(brokers := old(View()).brokers[ticket := marked])
              && allFulfilled == S.AllFulfilled(marked) && (allFulfilled ==> responses == S.Responses(marked))
    {
      hide S.MarkAll, S.AllFulfilled, S.Responses;
      ghost var before := View();
      allFulfilled, responses := Collect(brokers[ticket], messageId, content);
      forall t | t in brokers && t != ticket
        ensures Views(brokers[t]) == before.brokers[t]
      {
        assert forall i | 0 <= i < |brokers[t]| :: brokers[t][i] !in brokers[ticket];
      }
    }

    method Erase(ticket: int)
      requires Valid() && ticket in brokers
      modifies this`brokers
      ensures Valid() && View() == S.Forget(old(View()), ticket)
    {
      brokers := map t | t in brokers && t != ticket :: brokers[t];
    }

    // The ricochet branch of fulfill.
    method Ricochet(job: Job, ticket: int)
      requires Valid() && ticket in brokers && brokers[ticket] != [] && job.callback != null
      modifies this`latencies, job`mean, job.callback
      ensures Valid()
      ensures var samples := S.LatenciesOf(old(View()), ticket) + [old(View()).brokers[ticket][0].latency];
              && View() == old(View()).(latencies := old(latencies)[ticket := samples])
              && job.callback.View() == S.Bounced(old(job.callback.View()))
              && job.mean == if old(job.callback.count == job.callback.limit && job.callback.fn == "AVG")
                             then Some(S.Mean(samples)) else old(job.mean)
    {
      hide S.Mean, S.Sum, S.Bounced;
      var callback := job.callback;
      var samples := if ticket in latencies then latencies[ticket] else [];
      samples := samples + [brokers[ticket][0].latency];
      latencies := latencies[ticket := samples];
      if callback.count == callback.limit && callback.fn == "AVG" {
        var mean := Average(samples);
        job.mean := Some(mean);
      }
      callback.Bounce();
    }

    method Average(samples: seq<real>) returns (mean: real)
      requires |samples| > 0
      ensures mean == S.Mean(samples)
    {
      hide S.Sum;
      var sum := AddUp(samples);
      mean := sum / |samples| as real;
    }

    method AddUp(samples: seq<real>) returns (sum: real)
      ensures sum == S.Sum(samples)
    {
      sum := 0.0;
      var i := 0;
      while i < |samples|
        invariant i <= |samples| && sum == S.Sum(samples[..i])
      {
        assert samples[..i + 1][..i] == samples[..i];
        sum := sum + samples[i];
        i := i + 1;
      }
      assert samples[..i] == samples;
    }

    // The job that has arrived is matched with the ticket it answers: 0 nothing to deliver, 1 the
    // response is complete, 2 the job is to be served.
    method Fulfill(job: Job) returns (status: int, response: string)
      requires Valid() && job.Numbered() && S.CanFulfill(View(), job.View())
      modifies this, owned, job, job.callback
      ensures Valid()
      ensures var f := S.Fulfill(old(View()), old(job.View()));
              && View() == f.node && status == f.status && response == f.response
              && job.View().callback == f.callback && (f.mean.Some? ==> job.mean == f.mean)
              && (f.mean.None? ==> job.mean == old(job.mean))
    {
      hide S.BatchText, S.MarkAll, S.Responses, S.AllFulfilled, S.Mean, S.Bounced, C.Stoi;
      status, response := 0, "";
      var ticket := Number(job.ticket);
      if ticket in brokers {
        if job.callback != null && job.callback.resolved {
          Erase(ticket);
          job.callback := null;
          return 2, "";
        }
        if job.brokerType == "simple" {
          if job.callback == null {
            Erase(ticket);
            return 1, job.content;
          }
        } else if job.brokerType == "broadcast" {
          if job.callback == null {
            var allFulfilled, responses := Gather(ticket, Number(job.messageId), job.content);
            if allFulfilled {
              response := BatchSerialize(responses, "null");
              Erase(ticket);
              return 1, response;
            }
          }
        } else if job.brokerType == "ricochet" {
          if job.callback != null {
            Ricochet(job, ticket);
            return 2, "";
          }
        }
      }
    }

    // Bifrost::buffer: ids are given out in order, and a url that is no address gets no message.
    method NewBuffer(url: string) returns (buf: MessageBuffer?)
      modifies this`messageId
      ensures buf == null <==> !isAddress(url)
      ensures messageId == old(messageId) + if buf == null then 0 else 1
      ensures buf != null ==> fresh(buf) && buf.View() == S.Message(messageId, url, 0, "undefined", 0.0)
      ensures buf != null ==> buf.headers == map[] && buf.ticket == -1
    {
      if !isAddress(url) {
        return null;
      }
      messageId := messageId + 1;
      buf := new MessageBuffer(messageId, url);
    }

    // The ticket gets new messages; what it had is forgotten.
    method Register(ticket: int, ms: seq<MessageBuffer>)
      requires Valid() && Distinct(ms) && (forall m | m in ms :: m !in owned)
      modifies this`brokers, this`owned, this`dispatched
      ensures Valid() && View() == old(View()).(brokers := old(View()).brokers[ticket := Views(ms)])
      ensures brokers == old(brokers)[ticket := ms]
      ensures dispatched == old(dispatched) + ms
    {
      brokers := brokers[ticket := ms];
      owned := owned + set m | m in ms;
      dispatched := dispatched + ms;
    }

    // The headers of the messages of a broadcast; without content they get none.
    ghost function BroadcastHeaders(ticket: int, id: int): map<string, string>
    {
      map["Broker-Type" := "broadcast", "Ticket" := Decimal(ticket), "Message-Id" := Decimal(id)]
    }

    // A message of a broadcast.
    ghost predicate Prepared(buf: MessageBuffer, id: int, url: string, content: string, ticket: int)
      reads buf
    {
      && buf.View() == S.Message(id, url, 0, "undefined", 0.0)
      && (content != "" ==> buf.sent == content && buf.headers == BroadcastHeaders(ticket, id))
      && (content == "" ==> buf.headers == map[])
    }

    // The callers of NewBuffer use the message at once.
    method BroadcastBuffer(url: string, content: string, ticket: int) returns (buf: MessageBuffer)
      requires isAddress(url)
      modifies this`messageId
      ensures fresh(buf) && messageId == old(messageId) + 1
      ensures Prepared(buf, messageId, url, content, ticket)
    {
      hide Decimal;
      buf := NewBuffer(url);
      if content != "" {
        buf.sent := content;
        buf.ticket := ticket;
        buf.headers := buf.headers["Broker-Type" := "broadcast"];
        buf.headers := buf.headers["Ticket" := Decimal(ticket)];
        buf.headers := buf.headers["Message-Id" := Decimal(buf.id)];
      }
    }

    method BroadcastAsync(urls: seq<string>, content: string) returns (ticket: int)
      requires Valid() && forall i | 0 <= i < |urls| :: isAddress(urls[i])
      modifies this`brokers, this`owned, this`dispatched, this`ticketId, this`messageId
      ensures Valid() && ticket == ticketId == old(ticketId) + 1
      ensures View() == old(View()).(brokers := old(View()).brokers[ticket := NewMessages(urls, old(messageId) + 1)])
      ensures ticket in brokers && |brokers[ticket]| == |urls|
      ensures forall i | 0 <= i < |urls| ::
                Prepared(brokers[ticket][i], old(messageId) + 1 + i, urls[i], content, ticket)
      ensures dispatched == old(dispatched) + brokers[ticket]
    {
      hide Prepared, NewMessages, Views;
      ticketId := ticketId + 1;
      ticket := ticketId;
      var mq := BroadcastBuffers(urls, content, ticket);
      PreparedViews(mq, old(messageId) + 1, urls, content, ticket);
      Register(ticket, mq);
    }

    lemma PreparedViews(mq: seq<MessageBuffer>, id: int, urls: seq<string>, content: string, ticket: int)
      requires |mq| == |urls| && forall i | 0 <= i < |mq| :: Prepared(mq[i], id + i, urls[i], content, ticket)
      ensures Views(mq) == NewMessages(urls, id)
    {
      hide BroadcastHeaders;
    }

    // The loop over the urls.
    method BroadcastBuffers(urls: seq<string>, content: string, ticket: int) returns (mq: seq<MessageBuffer>)
      requires forall i | 0 <= i < |urls| :: isAddress(urls[i])
      modifies this`messageId
      ensures messageId == old(messageId) + |urls|
      ensures |mq| == |urls| && Distinct(mq) && forall m | m in mq :: fresh(m)
      ensures forall i | 0 <= i < |urls| :: Prepared(mq[i], old(messageId) + 1 + i, urls[i], content, ticket)
    {
      hide Prepared;
      mq := [];
      var i := 0;
      while i < |urls|
        invariant 0 <= i <= |urls| && |mq| == i && messageId == old(messageId) + i
        invariant Distinct(mq) && forall m | m in mq :: fresh(m)
        invariant forall k | 0 <= k < i :: Prepared(mq[k], old(messageId) + 1 + k, urls[k], content, ticket)
        modifies this`messageId
      {
        var buf := BroadcastBuffer(urls[i], content, ticket);
        mq := mq + [buf];
        i := i + 1;
      }
    }

    // The headers of one message; without content it gets none.
    ghost function MessageHeaders(content: string, headers: map<string, string>, callback: Callback?)
      : map<string, string>
      reads callback
    {
      if content == "" then map[]
      else if callback == null then headers
      else headers + C.CallbackHeaders(callback.View())
    }

    // One message for a ticket, with the callback if there is one.
    method SendMessage(ticket: int, url: string, content: string, callback: Callback?, headers: map<string, string>)
      returns (ghost buf: MessageBuffer)
      requires Valid() && isAddress(url)
      modifies this`brokers, this`owned, this`dispatched, this`messageId
      ensures Valid() && messageId == old(messageId) + 1
      ensures View() == BifrostRicochet.Registered(old(View()), ticket, S.Message(messageId, url, 0, "undefined", 0.0))
      ensures dispatched == old(dispatched) + [buf] && fresh(buf) && (content != "" ==> buf.sent == content)
      ensures buf.headers == MessageHeaders(content, headers, callback)
    {
      var b := PreparedBuffer(ticket, url, content, callback, headers);
      assert View() == old(View());
      assert Views([b]) == [S.Message(messageId, url, 0, "undefined", 0.0)];
      Register(ticket, [b]);
      buf := b;
    }

    method PreparedBuffer(ticket: int, url: string, content: string, callback: Callback?, headers: map<string, string>)
      returns (buf: MessageBuffer)
      requires isAddress(url)
      modifies this`messageId
      ensures messageId == old(messageId) + 1
      ensures fresh(buf) && buf.View() == S.Message(messageId, url, 0, "undefined", 0.0)
      ensures (content != "" ==> buf.sent == content) && buf.headers == MessageHeaders(content, headers, callback)
    {
      hide C.CallbackHeaders;
      buf := NewBuffer(url);
      if content != "" {
        buf.sent := content;
        buf.ticket := ticket;
        buf.headers := headers;
        if callback != null {
          callback.Serialize(buf);
        }
      }
    }

    method SendAsync(url: string, content: string, callback: Callback?) returns (ticket: int, ghost buf: MessageBuffer)
      requires Valid() && isAddress(url)
      modifies this`brokers, this`owned, this`dispatched, this`ticketId, this`messageId
      ensures Valid() && ticket == ticketId == old(ticketId) + 1 && messageId == old(messageId) + 1
      ensures View() == BifrostRicochet.Registered(old(View()), ticket, S.Message(messageId, url, 0, "undefined", 0.0))
      ensures dispatched == old(dispatched) + [buf]
      ensures buf.headers == MessageHeaders(content, SimpleHeaders(ticket, messageId), callback)
      ensures content != "" ==> buf.sent == content
    {
      ticketId := ticketId + 1;
      ticket := ticketId;
      buf := SendMessage(ticket, url, content, callback, SimpleHeaders(ticket, messageId + 1));
    }

    function SimpleHeaders(ticket: int, id: int): map<string, string>
    {
      map["Broker-Type" := "simple", "Ticket" := Decimal(ticket), "Message-Id" := Decimal(id)]
    }

    method RicochetAsync(url: string, content: string, callback: Callback?)
      returns (ticket: int, ghost buf: MessageBuffer)
      requires Valid() && isAddress(url)
      modifies this`brokers, this`owned, this`dispatched, this`ticketId, this`messageId
      ensures Valid() && ticket == ticketId == old(ticketId) + 1 && messageId == old(messageId) + 1
      ensures View() == BifrostRicochet.Registered(old(View()), ticket, S.Message(messageId, url, 0, "undefined", 0.0))
      ensures dispatched == old(dispatched) + [buf]
      ensures buf.headers == MessageHeaders(content, RicochetHeaders(ticket), callback)
      ensures content != "" ==> buf.sent == content
    {
      ticketId := ticketId + 1;
      ticket := ticketId;
      buf := SendMessage(ticket, url, content, callback, RicochetHeaders(ticket));
    }

    function RicochetHeaders(ticket: int): map<string, string>
    {
      map["Ticket" := Decimal(ticket), "Broker-Type" := "ricochet"]
    }

    // The headers of a message tell its type, its ticket and its own number, as fulfill reads them.
    lemma HeadersAddress(ticket: int, id: int, job: Job)
      requires C.IsInt(ticket) && C.IsInt(id)
      ensures var h := BroadcastHeaders(ticket, id);
              && h.Keys == {"Broker-Type", "Ticket", "Message-Id"} && h["Broker-Type"] == "broadcast"
              && C.Stoi(h["Ticket"]) == Some(ticket) && C.Stoi(h["Message-Id"]) == Some(id)
      ensures var h := SimpleHeaders(ticket, id);
              && h.Keys == {"Broker-Type", "Ticket", "Message-Id"} && h["Broker-Type"] == "simple"
              && C.Stoi(h["Ticket"]) == Some(ticket) && C.Stoi(h["Message-Id"]) == Some(id)
      ensures var h := RicochetHeaders(ticket);
              && h.Keys == {"Broker-Type", "Ticket"} && h["Broker-Type"] == "ricochet"
              && C.Stoi(h["Ticket"]) == Some(ticket)
      ensures var h := ReplyHeaders(job);
              && h.Keys == {"Broker-Type", "Ticket", "Message-Id"} && h["Broker-Type"] == "ricochet"
              && h["Ticket"] == job.ticket && h["Message-Id"] == job.messageId
    {
      C.StoiDecimal(ticket);
      C.StoiDecimal(id);
      hide C.Stoi, Decimal;
      assert "Ticket"[0] != "Broker-Type"[0] && "Ticket"[0] != "Message-Id"[0] && "Broker-Type"[0] != "Message-Id"[0];
    }

    // An answer keeps the ticket and the message id of the job.
    function ReplyHeaders(job: Job): map<string, string>
    {
      map["Ticket" := job.ticket, "Broker-Type" := "ricochet", "Message-Id" := job.messageId]
    }

    method RicochetReply(job: Job, url: string, content: string) returns (ghost buf: MessageBuffer)
      requires Valid() && C.Stoi(job.ticket).Some? && isAddress(url)
      modifies this`brokers, this`owned, this`dispatched, this`messageId
      ensures Valid() && messageId == old(messageId) + 1
      ensures View() == BifrostRicochet.Registered(
                          old(View()), Number(job.ticket), S.Message(messageId, url, 0, "undefined", 0.0))
      ensures dispatched == old(dispatched) + [buf]
      ensures buf.headers == MessageHeaders(content, ReplyHeaders(job), job.callback)
      ensures content != "" ==> buf.sent == content
    {
      buf := SendMessage(Number(job.ticket), url, content, job.callback, ReplyHeaders(job));
    }

    // send: a ticket and a message that are not registered; what the fetch returns is not used here. The
    // message does not carry the callback send is given.
    method Send(url: string, content: string, callback: Callback?) returns (ghost buf: MessageBuffer)
      requires isAddress(url)
      modifies this`ticketId, this`messageId
      ensures ticketId == old(ticketId) + 1 && messageId == old(messageId) + 1
      ensures fresh(buf) && buf.id == messageId && buf.url == url
      ensures content != "" ==> buf.sent == content && buf.headers == SimpleHeaders(ticketId, messageId)
      ensures content == "" ==> buf.headers == map[]
    {
      hide Decimal;
      ticketId := ticketId + 1;
      var b := NewBuffer(url);
      if content != "" {
        b.sent := content;
        b.headers := SimpleHeaders(ticketId, b.id);
      }
      buf := b;
    }

    // The handler ClientProfile: the callback a ricochet starts with, and the message that carries it.
    method ClientProfile(hostname: string, url: string)
      returns (ticket: int, callback: Callback, ghost buf: MessageBuffer)
      requires Valid() && isAddress(url)
      modifies this`brokers, this`owned, this`dispatched, this`ticketId, this`messageId
      ensures Valid() && ticket == ticketId == old(ticketId) + 1 && messageId == old(messageId) + 1
      ensures callback.View() == S.Callback(hostname, "/ping-ricochet", "LATENCY", false, "AVG", 0, 100, false)
      ensures View() == BifrostRicochet.Registered(old(View()), ticket, S.Message(messageId, url, 0, "undefined", 0.0))
      ensures dispatched == old(dispatched) + [buf] && buf.sent == "null"
      ensures buf.headers == RicochetHeaders(ticket) + C.CallbackHeaders(callback.View())
    {
      hide C.CallbackHeaders, RicochetHeaders;
      callback := new Callback(hostname, "/ping-ricochet", "LATENCY", false, "AVG", 0, 100);
      ticket, buf := RicochetAsync(url, "null", callback);
    }

    // The handler PingRicochet. url is the one to reply to, mean the text of an average. posted is what the
    // thread pool gets, asked what is sent at once. Once the callback is resolved no message carries it.
    method PingRicochet(job: Job, url: string, mean: string)
      returns (ghost posted: seq<MessageBuffer>, ghost asked: seq<MessageBuffer>)
      requires Valid() && C.Stoi(job.ticket).Some? && isAddress(url) && isAddress(RESOLUTION) && isAddress(TRAIN)
      modifies this`brokers, this`owned, this`dispatched, this`ticketId, this`messageId
      ensures Valid() && dispatched == old(dispatched) + posted
      ensures View() == if job.callback == null then old(View())
                        else BifrostRicochet.Registered(
                               old(View()), if job.callback.resolved then ticketId else Number(job.ticket),
                               S.Message(messageId, if job.callback.resolved then TRAIN else url, 0, "undefined", 0.0))
      ensures ticketId == old(ticketId) + if job.callback != null && job.callback.resolved then 2 else 0
      ensures messageId == old(messageId) + (if job.callback == null then 0 else if job.callback.resolved then 2 else 1)
      ensures job.callback == null ==> posted == [] && asked == []
      ensures job.callback != null && !job.callback.resolved ==>
                && |posted| == 1 && asked == [] && posted[0].sent == "null"
                && posted[0].headers == ReplyHeaders(job) + C.CallbackHeaders(job.callback.View())
      ensures job.callback != null && job.callback.resolved ==>
                && |posted| == 1 && |asked| == 1
                && asked[0].url == RESOLUTION && asked[0].sent == "null"
                && asked[0].headers == SimpleHeaders(ticketId - 1, messageId - 1)
                && posted[0].headers == MessageHeaders(Content(job, mean), SimpleHeaders(ticketId, messageId), null)
                && (Content(job, mean) != "" ==> posted[0].sent == Content(job, mean))
    {
      hide C.CallbackHeaders, SimpleHeaders;
      posted, asked := [], [];
      if job.callback != null {
        if !job.callback.resolved {
          ghost var buf := RicochetReply(job, url, "null");
          posted := [buf];
        } else {
          ghost var buf, request := Resolve(job, mean);
          posted, asked := [buf], [request];
        }
      }
    }

    // The branch for a resolved callback.
    method Resolve(job: Job, mean: string) returns (ghost buf: MessageBuffer, ghost request: MessageBuffer)
      requires Valid() && isAddress(RESOLUTION) && isAddress(TRAIN)
      modifies this`brokers, this`owned, this`dispatched, this`ticketId, this`messageId
      ensures Valid() && dispatched == old(dispatched) + [buf]
      ensures View() == BifrostRicochet.Registered(
                          old(View()), ticketId, S.Message(messageId, TRAIN, 0, "undefined", 0.0))
      ensures ticketId == old(ticketId) + 2 && messageId == old(messageId) + 2
      ensures request.url == RESOLUTION && request.sent == "null"
      ensures request.headers == SimpleHeaders(ticketId - 1, messageId - 1)
      ensures buf.headers == MessageHeaders(Content(job, mean), SimpleHeaders(ticketId, messageId), null)
      ensures Content(job, mean) != "" ==> buf.sent == Content(job, mean)
    {
      hide SimpleHeaders;
      request := Send(RESOLUTION, "null", job.callback);
      var ticket;
      ticket, buf := SendAsync(TRAIN, Content(job, mean), null);
    }

    // The content of a job, which an average replaces.
    function Content(job: Job, mean: string): string
      reads job
    {
      if job.mean.Some? then mean else job.content
    }
  }

  const RESOLUTION := "job://127.0.0.1:8084/callback-resolution"
  const TRAIN := "https://127.0.0.1:8084/train"

  // The messages of a broadcast: numbered from id on, none of them answered.
  function NewMessages(urls: seq<string>, id: int): (r: seq<S.Message>)
    ensures |r| == |urls|
    ensures forall i | 0 <= i < |r| :: r[i].url == urls[i] && r[i].fulfilled == 0
    ensures forall i, j | 0 <= i < j < |r| :: r[i].id != r[j].id
  {
    seq(|urls|, i requires 0 <= i < |urls| => S.Message(id + i, urls[i], 0, "undefined", 0.0))
  }
}
