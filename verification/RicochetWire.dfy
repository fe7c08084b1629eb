// A ricochet whose callback travels as the headers of printed jobs (ricochet_reply of
// core/src/message/bifrost.cc, send_request of core/src/server/fetch.cc and Request::eval).
module RicochetWire {
  import opened Common
  import opened JsonText
  import opened BifrostSpec
  import opened CallbackSpec
  import opened BifrostRicochet
  import opened JobSpec
  import opened JobProofs
  import opened JobRoundTrip

  // The job fulfill is given for a request.
  function ReplyOf(r: Request): Reply
    requires r.Request?
  {
    Reply(NumberOf(Get(r.headers, "Ticket")), Get(r.headers, "Broker-Type"), NumberOf(Get(r.headers, "Message-Id")),
          r.content, r.callback)
  }

  // std::stoi, for a text it does not refuse.
  function NumberOf(s: string): int
  {
    match Stoi(s)
    case Some(n) => n
    case None => 0
  }

  // The headers of a ricochet besides those of the callback.
  function TicketHeaders(ticket: int): map<string, string>
  {
    map["Ticket" := Decimal(ticket), "Broker-Type" := "ricochet"]
  }

  // j carries the callback in flight, in any order of the headers, with a Message-Id or without. Its body
  // has no blank line.
  predicate Ships(g: Game, j: Job)
  {
    && Sendable(j) && !Holds(j.body, END)
    && AsMap(j.headers) - {"Message-Id"} == TicketHeaders(g.ticket) + CallbackHeaders(g.callback)
  }

  lemma NotCallbackKeysEither()
    ensures !IsCallbackKey("Ticket") && !IsCallbackKey("Broker-Type") && !IsCallbackKey("Message-Id")
  {
    hide IndexOf;
    TooShort("Ticket", "Callback-");
    FreeOf("Broker-Type", "Callback-");
    FreeOf("Message-Id", "Callback-");
  }

  // Counters of a run with a limit that is not negative stay ints; with a negative one, exactly until the
  // callback has been counted 2^31 times.
  lemma CountersStayInts(g: Game, answers: seq<Message>)
    requires Started(g) && IsInt(g.callback.limit)
    ensures var h := Play(g, answers);
            && IsInt(h.callback.limit)
            && (IsInt(h.callback.count) <==> g.callback.limit >= 0 || (|answers| + 1) / 2 < 0x8000_0000)
  {
    hide Play;
    CallbackAfter(g, answers);
    var h, limit := Play(g, answers), g.callback.limit;
    if limit >= 0 && !h.callback.resolved {
      assert |answers| < Length(limit);
      assert (h.bounces + 1) / 2 <= limit;
    }
  }

  lemma NoSizeHeader(hs: seq<Header>)
    requires "Content-Size" !in AsMap(hs)
    ensures SizesReadable(hs)
  {
    forall i | 0 <= i < |hs|
      ensures hs[i].key != "Content-Size"
    {
      KeyInMap(hs, i);
    }
  }

  lemma {:induction false} KeyInMap(hs: seq<Header>, i: nat)
    requires i < |hs|
    ensures hs[i].key in AsMap(hs)
    decreases |hs|
  {
    if i > 0 {
      KeyInMap(hs[1..], i - 1);
    }
  }

  lemma Distinguished()
    ensures "Ticket" != "Broker-Type" && "Ticket" != "Message-Id" && "Broker-Type" != "Message-Id"
    ensures "Content-Size" != "Ticket" && "Content-Size" != "Broker-Type" && "Content-Size" != "Message-Id"
  {
    assert "Ticket"[0] != "Broker-Type"[0] && "Ticket"[0] != "Message-Id"[0] && "Broker-Type"[0] != "Message-Id"[0];
    assert "Content-Size"[0] != "Ticket"[0] && "Content-Size"[0] != "Broker-Type"[0]
           && "Content-Size"[0] != "Message-Id"[0];
  }

  lemma CallbacksAmong(m: map<string, string>, others: map<string, string>, skipped: string, cb: Callback)
    requires m - {skipped} == others + CallbackHeaders(cb)
    requires !IsCallbackKey(skipped) && forall key | key in others :: !IsCallbackKey(key)
    ensures CallbackMap(m) == CallbackHeaders(cb)
  {
    hide IsCallbackKey, CallbackHeaders;
    CallbackKeys(cb);
    var c := CallbackHeaders(cb);
    forall key | key in m
      ensures IsCallbackKey(key) <==> key in c
      ensures key in c ==> m[key] == c[key]
    {
      assert key != skipped ==> key in m - {skipped} && (m - {skipped})[key] == m[key];
    }
    forall key | key in c
      ensures key in m
    {
      assert key in m - {skipped};
    }
  }

  // What the headers of such a job say.
  lemma ShippedHeaders(g: Game, j: Job)
    requires Ships(g, j) && IsInt(g.callback.count) && IsInt(g.callback.limit)
    ensures SizesReadable(j.headers) && Carries(j, Some(g.callback))
    ensures "Ticket" in AsMap(j.headers) && AsMap(j.headers)["Ticket"] == Decimal(g.ticket)
    ensures "Broker-Type" in AsMap(j.headers) && AsMap(j.headers)["Broker-Type"] == "ricochet"
  {
    hide AsMap, CallbackHeaders, Sendable, IsCallbackKey, Decimal, SizesReadable;
    var m := AsMap(j.headers);
    Distinguished();
    NotCallbackKeysEither();
    NotCallbackKeys();
    CallbackKeys(g.callback);
    CallbacksAmong(m, TicketHeaders(g.ticket), "Message-Id", g.callback);
    assert forall key | key in TicketHeaders(g.ticket) + CallbackHeaders(g.callback) :: key in m - {"Message-Id"};
    assert forall key | key in m && key != "Message-Id" :: key in m - {"Message-Id"};
    NoSizeHeader(j.headers);
  }

  // The printed job brings to the other node just what the protocol says arrives there.
  lemma ShippedArrives(g: Game, j: Job, decoded: string)
    requires Playable(g) && Ships(g, j) && !g.callback.resolved
    requires IsInt(g.ticket) && IsInt(g.callback.count) && IsInt(g.callback.limit)
    ensures Eval(Print(j), decoded).Request?
    ensures var r := ReplyOf(Eval(Print(j), decoded));
            && r.callback == Some(g.callback) && CanFulfill(Here(g), r)
            && Fulfill(Here(g), r) == Fulfill(Here(g), Arrival(g))
  {
    hide Eval, Print, AsMap, FixedHeaders, Carries, SizesReadable, Decimal, Sendable, SaysOctets, SaysBase64;
    ShippedHeaders(g, j);
    EvalInvertsPrint(j, Some(g.callback), decoded);
    StoiDecimal(g.ticket);
    var r := ReplyOf(Eval(Print(j), decoded));
    assert r.ticket == g.ticket && r.brokerType == "ricochet" && r.callback == Some(g.callback);
  }

  // In any run with a limit that is not negative, whatever job carries the callback: the other node does
  // with the text of the job what it does with the callback itself.
  lemma RunOverTheWire(g: Game, answers: seq<Message>, j: Job, decoded: string)
    requires Started(g) && IsInt(g.ticket) && IsInt(g.callback.limit) && g.callback.limit >= 0
    requires !Play(g, answers).callback.resolved && Ships(Play(g, answers), j)
    ensures Eval(Print(j), decoded).Request?
    ensures var h, r := Play(g, answers), ReplyOf(Eval(Print(j), decoded));
            && r.callback == Some(h.callback) && CanFulfill(Here(h), r)
            && Fulfill(Here(h), r) == Fulfill(Here(h), Arrival(h))
            && Fulfill(Here(h), r).callback == Some(Bounced(h.callback))
  {
    hide Play, Fulfill, Ships, Eval, Print;
    CallbackAfter(g, answers);
    CountersStayInts(g, answers);
    var h := Play(g, answers);
    ShippedArrives(h, j, decoded);
    ArrivalBounces(h);
  }

  lemma ArrivalBounces(g: Game)
    requires Playable(g) && !g.callback.resolved
    ensures Fulfill(Here(g), Arrival(g)).callback == Some(Bounced(g.callback))
  {
  }
}
