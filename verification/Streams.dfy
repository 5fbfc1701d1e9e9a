// The subscribers of a tunnel's streams, apps/pwa/src/tunnel.ts: payloads go to every handler of their
// stream or wait for the first one, and a failing tunnel wakes everybody.
module Streams {
  import opened SealedChannel

  datatype Delivery = Delivery(handler: nat, payload: Bytes)

  // Handlers by stream, the streams in the order they got their first handler, the buffered items and
  // what handlers have been given.
  datatype Streams = Streams(listeners: map<u32, seq<nat>>, order: seq<u32>, pending: seq<Item>, delivered: seq<Delivery>)

  const SILENT: Streams := Streams(map[], [], [], [])

  predicate NoRepeats<T(==)>(s: seq<T>)
  {
    forall i, j :: 0 <= i < j < |s| ==> s[i] != s[j]
  }

  // The order lists exactly the streams with handlers, and no handler is registered twice.
  ghost predicate Tidy(s: Streams)
  {
    && NoRepeats(s.order) && (forall t :: t in s.order <==> t in s.listeners)
    && (forall t :: t in s.listeners ==> s.listeners[t] != [] && NoRepeats(s.listeners[t]))
  }

  // ------------------------------------------------------------- delivering

  function Broadcast(handlers: seq<nat>, payload: Bytes): seq<Delivery>
  {
    seq(|handlers|, i requires 0 <= i < |handlers| => Delivery(handlers[i], payload))
  }

  // Handing a payload to every subscriber of its stream, or keeping it for the first one.
  function Dispatched(s: Streams, item: Item): Streams
  {
    if item.stream !in s.listeners || s.listeners[item.stream] == [] then s.(pending := s.pending + [item])
    else s.(delivered := s.delivered + Broadcast(s.listeners[item.stream], item.msg))
  }

  // An empty payload for every stream, in the order of the streams.
  function Woken(s: Streams, streams: seq<u32>): Streams
    decreases |streams|
  {
    if streams == [] then s else Woken(Dispatched(s, Item(streams[0], [])), streams[1..])
  }

  // ------------------------------------------------------------ subscribing

  function OfStream(items: seq<Item>, stream: u32): seq<Bytes>
  {
    if items == [] then []
    else (if items[0].stream == stream then [items[0].msg] else []) + OfStream(items[1..], stream)
  }

  function NotOfStream(items: seq<Item>, stream: u32): seq<Item>
  {
    if items == [] then []
    else (if items[0].stream == stream then [] else [items[0]]) + NotOfStream(items[1..], stream)
  }

  function Reversed<T>(s: seq<T>): (r: seq<T>)
    ensures |r| == |s|
    ensures forall i :: 0 <= i < |s| ==> r[i] == s[|s| - 1 - i]
  {
    if s == [] then [] else Reversed(s[1..]) + [s[0]]
  }

  function Deliveries(handler: nat, payloads: seq<Bytes>): seq<Delivery>
  {
    seq(|payloads|, i requires 0 <= i < |payloads| => Delivery(handler, payloads[i]))
  }

  // A handler is registered once per stream.
  function Subscribed(s: Streams, stream: u32, handler: nat): Streams
  {
    if stream !in s.listeners then s.(listeners := s.listeners[stream := [handler]], order := s.order + [stream])
    else if handler in s.listeners[stream] then s
    else s.(listeners := s.listeners[stream := s.listeners[stream] + [handler]])
  }

  // A new handler is given what was buffered for its stream, newest first; the rest stays in order.
  function HandedOver(s: Streams, stream: u32, handler: nat): Streams
  {
    s.(pending := NotOfStream(s.pending, stream),
       delivered := s.delivered + Deliveries(handler, Reversed(OfStream(s.pending, stream))))
  }

  function Without<T(==)>(s: seq<T>, x: T): seq<T>
  {
    if s == [] then [] else (if s[0] == x then [] else [s[0]]) + Without(s[1..], x)
  }

  // Removes only this handler, and the stream with its last one.
  function Unsubscribed(s: Streams, stream: u32, handler: nat): Streams
  {
    if stream !in s.listeners then s
    else
      var rest := Without(s.listeners[stream], handler);
      if rest == [] then s.(listeners := s.listeners - {stream}, order := Without(s.order, stream))
      else s.(listeners := s.listeners[stream := rest])
  }

  lemma {:induction false} WithoutKeeps<T>(s: seq<T>, x: T, y: T)
    ensures y in Without(s, x) <==> y in s && y != x
  {
    if s != [] {
      WithoutKeeps(s[1..], x, y);
      assert y in s <==> y == s[0] || y in s[1..];
    }
  }

  lemma NoRepeatsHead<T>(x: T, s: seq<T>)
    requires NoRepeats(s) && x !in s
    ensures NoRepeats([x] + s)
  {
    forall i, j | 0 <= i < j < |[x] + s| ensures ([x] + s)[i] != ([x] + s)[j] {
      assert ([x] + s)[j] == s[j - 1];
      if i > 0 {
        assert ([x] + s)[i] == s[i - 1];
      }
    }
  }

  lemma NoRepeatsTail<T>(s: seq<T>)
    requires NoRepeats(s) && s != []
    ensures NoRepeats(s[1..]) && s[0] !in s[1..]
  {
    forall i, j | 0 <= i < j < |s[1..]| ensures s[1..][i] != s[1..][j] {
      assert s[i + 1] != s[j + 1];
    }
  }

  lemma {:induction false} WithoutIsClean<T>(s: seq<T>, x: T)
    requires NoRepeats(s)
    ensures NoRepeats(Without(s, x))
  {
    if s != [] {
      var rest := Without(s[1..], x);
      NoRepeatsTail(s);
      WithoutIsClean(s[1..], x);
      WithoutKeeps(s[1..], x, s[0]);
      NoRepeatsHead(s[0], rest);
      assert [] + rest == rest;
    }
  }

  lemma NoRepeatsSnoc<T>(s: seq<T>, x: T)
    requires NoRepeats(s) && x !in s
    ensures NoRepeats(s + [x])
  {
    forall i, j | 0 <= i < j < |s + [x]| ensures (s + [x])[i] != (s + [x])[j] {
      assert (s + [x])[i] == s[i];
    }
  }

  // Subscribing, unsubscribing and delivering keep the books.
  lemma SubscribedTidy(s: Streams, stream: u32, handler: nat)
    requires Tidy(s)
    ensures Tidy(Subscribed(s, stream, handler))
  {
    if stream !in s.listeners {
      NoRepeatsSnoc(s.order, stream);
    } else if handler !in s.listeners[stream] {
      NoRepeatsSnoc(s.listeners[stream], handler);
    }
  }

  lemma UnsubscribedTidy(s: Streams, stream: u32, handler: nat)
    requires Tidy(s)
    ensures Tidy(Unsubscribed(s, stream, handler))
  {
    if stream in s.listeners {
      WithoutIsClean(s.listeners[stream], handler);
      if Without(s.listeners[stream], handler) == [] {
        LastHandlerLeaves(s, stream);
      }
    }
  }

  lemma LastHandlerLeaves(s: Streams, stream: u32)
    requires Tidy(s)
    ensures Tidy(s.(listeners := s.listeners - {stream}, order := Without(s.order, stream)))
  {
    WithoutIsClean(s.order, stream);
    forall t ensures t in Without(s.order, stream) <==> t in s.listeners - {stream} {
      WithoutKeeps(s.order, stream, t);
    }
  }

  datatype Use = Subscribes(stream: u32, handler: nat) | Unsubscribes(stream: u32, handler: nat) | Arrives(item: Item)

  function AfterUses(uses: seq<Use>): Streams
  {
    if uses == [] then SILENT else Used(AfterUses(uses[..|uses| - 1]), uses[|uses| - 1])
  }

  function Used(s: Streams, use: Use): Streams
  {
    match use
    case Subscribes(stream, handler) => HandedOver(Subscribed(s, stream, handler), stream, handler)
    case Unsubscribes(stream, handler) => Unsubscribed(s, stream, handler)
    case Arrives(item) => Dispatched(s, item)
  }

  // However a tunnel is used, its books are in order.
  lemma {:induction false} UsesStayTidy(uses: seq<Use>)
    ensures Tidy(AfterUses(uses))
  {
    if uses != [] {
      var s := AfterUses(uses[..|uses| - 1]);
      UsesStayTidy(uses[..|uses| - 1]);
      match uses[|uses| - 1]
      case Subscribes(stream, handler) => SubscribedTidy(s, stream, handler);
      case Unsubscribes(stream, handler) => UnsubscribedTidy(s, stream, handler);
      case Arrives(item) =>
    }
  }

  // The state while `on` walks the buffer backwards, with i items still to look at.
  function Partly(items: seq<Item>, i: nat, stream: u32): seq<Item>
    requires i <= |items|
  {
    items[..i] + NotOfStream(items[i..], stream)
  }

  function PartlyGiven(items: seq<Item>, i: nat, stream: u32, handler: nat): seq<Delivery>
    requires i <= |items|
  {
    Deliveries(handler, Reversed(OfStream(items[i..], stream)))
  }

  lemma NextHanded(items: seq<Item>, i: nat, stream: u32, handler: nat)
    requires i < |items| && items[i].stream == stream
    ensures NotOfStream(items[i..], stream) == NotOfStream(items[i + 1..], stream)
    ensures Deliveries(handler, Reversed(OfStream(items[i..], stream)))
         == Deliveries(handler, Reversed(OfStream(items[i + 1..], stream))) + [Delivery(handler, items[i].msg)]
  {
    assert items[i..][1..] == items[i + 1..];
    var p := OfStream(items[i..], stream);
    assert p == [items[i].msg] + OfStream(items[i + 1..], stream);
    assert p[1..] == OfStream(items[i + 1..], stream);
    assert Reversed(p) == Reversed(p[1..]) + [items[i].msg];
  }

  lemma NextKept(items: seq<Item>, i: nat, stream: u32)
    requires i < |items| && items[i].stream != stream
    ensures NotOfStream(items[i..], stream) == [items[i]] + NotOfStream(items[i + 1..], stream)
    ensures OfStream(items[i..], stream) == OfStream(items[i + 1..], stream)
  {
    assert items[i..][1..] == items[i + 1..];
    assert [] + OfStream(items[i + 1..], stream) == OfStream(items[i + 1..], stream);
  }

  // One more buffered item, seen from the newest end.
  lemma PartlyStep(items: seq<Item>, i: nat, stream: u32, handler: nat)
    requires i < |items|
    ensures (var p := Partly(items, i + 1, stream);
             && i < |p| && p[i] == items[i]
             && Partly(items, i, stream) == if items[i].stream == stream then p[..i] + p[i + 1..] else p)
    ensures PartlyGiven(items, i, stream, handler)
         == PartlyGiven(items, i + 1, stream, handler) + if items[i].stream == stream then [Delivery(handler, items[i].msg)] else []
  {
    var p, rest := Partly(items, i + 1, stream), NotOfStream(items[i + 1..], stream);
    assert items[..i + 1] == items[..i] + [items[i]];
    if items[i].stream == stream {
      NextHanded(items, i, stream, handler);
      assert p[..i] == items[..i] && p[i + 1..] == rest;
    } else {
      NextKept(items, i, stream);
      assert p == items[..i] + ([items[i]] + rest);
    }
  }

  // Buffered payloads reach a new subscriber newest first. For buffers of a given size that is arrival
  // order, whatever they hold, exactly when the size is at most one.
  lemma ArrivalOrderIff(n: nat)
    ensures (forall payloads: seq<Bytes> :: |payloads| == n ==> Reversed(payloads) == payloads) <==> n <= 1
  {
    if n > 1 {
      var p: seq<Bytes> := seq(n, i => if i == 0 then [0] else []);
      assert Reversed(p)[0] == p[n - 1] != p[0];
    }
  }

  // And for payloads that all differ, in every single case.
  lemma DistinctOrderIff(payloads: seq<Bytes>)
    requires forall i, j :: 0 <= i < j < |payloads| ==> payloads[i] != payloads[j]
    ensures Reversed(payloads) == payloads <==> |payloads| <= 1
  {
    if |payloads| > 1 {
      assert Reversed(payloads)[0] == payloads[|payloads| - 1];
    }
  }

  // ----------------------------------------------------- what subscribers see

  // The payloads one handler was given, in order.
  function SeenBy(deliveries: seq<Delivery>, handler: nat): seq<Bytes>
  {
    if deliveries == [] then []
    else
      var last := deliveries[|deliveries| - 1];
      SeenBy(deliveries[..|deliveries| - 1], handler) + if last.handler == handler then [last.payload] else []
  }

  lemma {:induction false} SeenByAppend(a: seq<Delivery>, b: seq<Delivery>, handler: nat)
    ensures SeenBy(a + b, handler) == SeenBy(a, handler) + SeenBy(b, handler)
  {
    if b == [] {
      assert a + b == a;
    } else {
      var n := |b| - 1;
      SeenByAppend(a, b[..n], handler);
      assert (a + b)[..|a + b| - 1] == a + b[..n];
    }
  }

  // Each subscriber of the stream gets a payload once, and nobody else gets it.
  lemma SeenOfBroadcast(handlers: seq<nat>, payload: Bytes, handler: nat)
    requires NoRepeats(handlers)
    ensures SeenBy(Broadcast(handlers, payload), handler) == if handler in handlers then [payload] else []
  {
    assert handlers[..|handlers|] == handlers;
    if k: nat :| k < |handlers| && handlers[k] == handler {
      SeenOnce(handlers, |handlers|, k, payload);
    } else {
      SeenNever(handlers, |handlers|, payload, handler);
    }
  }

  lemma {:induction false} SeenNever(handlers: seq<nat>, n: nat, payload: Bytes, handler: nat)
    requires n <= |handlers| && forall i :: 0 <= i < n ==> handlers[i] != handler
    ensures SeenBy(Broadcast(handlers[..n], payload), handler) == []
  {
    if n > 0 {
      SeenNever(handlers, n - 1, payload, handler);
      LastOfBroadcast(handlers[..n - 1], handlers[n - 1], payload, handler);
      assert handlers[..n] == handlers[..n - 1] + [handlers[n - 1]];
    }
  }

  lemma {:induction false} SeenOnce(handlers: seq<nat>, n: nat, k: nat, payload: Bytes)
    requires k < n <= |handlers| && NoRepeats(handlers)
    ensures SeenBy(Broadcast(handlers[..n], payload), handlers[k]) == [payload]
  {
    LastOfBroadcast(handlers[..n - 1], handlers[n - 1], payload, handlers[k]);
    assert handlers[..n] == handlers[..n - 1] + [handlers[n - 1]];
    if k == n - 1 {
      SeenNever(handlers, n - 1, payload, handlers[k]);
    } else {
      SeenOnce(handlers, n - 1, k, payload);
    }
  }

  lemma LastOfBroadcast(front: seq<nat>, last: nat, payload: Bytes, handler: nat)
    ensures SeenBy(Broadcast(front + [last], payload), handler)
         == SeenBy(Broadcast(front, payload), handler) + if last == handler then [payload] else []
  {
    assert Broadcast(front + [last], payload) == Broadcast(front, payload) + [Delivery(last, payload)];
    SeenByAppend(Broadcast(front, payload), [Delivery(last, payload)], handler);
    SeenByOne(last, payload, handler);
  }

  lemma SeenByOne(last: nat, payload: Bytes, handler: nat)
    ensures SeenBy([Delivery(last, payload)], handler) == if last == handler then [payload] else []
  {
    assert [Delivery(last, payload)][..0] == [];
  }

  // The deliveries after a payload went to the subscribers of its stream, if there are any.
  function Given(listeners: map<u32, seq<nat>>, delivered: seq<Delivery>, item: Item): seq<Delivery>
  {
    if item.stream !in listeners then delivered else delivered + Broadcast(listeners[item.stream], item.msg)
  }

  // The handler watches this stream and no other.
  predicate Watches(listeners: map<u32, seq<nat>>, stream: u32, handler: nat)
  {
    && stream in listeners && handler in listeners[stream]
    && (forall t :: t in listeners ==> NoRepeats(listeners[t]) && (handler in listeners[t] ==> t == stream))
  }

  lemma GivenSeen(listeners: map<u32, seq<nat>>, delivered: seq<Delivery>, item: Item, stream: u32, handler: nat)
    requires Watches(listeners, stream, handler)
    ensures SeenBy(Given(listeners, delivered, item), handler)
         == SeenBy(delivered, handler) + if item.stream == stream then [item.msg] else []
  {
    if item.stream in listeners {
      SeenByAppend(delivered, Broadcast(listeners[item.stream], item.msg), handler);
      SeenOfBroadcast(listeners[item.stream], item.msg, handler);
    }
  }

  lemma DispatchedDelivery(s: Streams, item: Item)
    ensures Dispatched(s, item).listeners == s.listeners
    ensures Dispatched(s, item).delivered == Given(s.listeners, s.delivered, item)
  {
    if item.stream in s.listeners && s.listeners[item.stream] == [] {
      assert s.delivered + Broadcast([], item.msg) == s.delivered;
    }
  }

  // Waking the streams gives each subscriber of one of them one empty payload, and buffers nothing.
  lemma {:induction false} WokenOnce(s: Streams, streams: seq<u32>, stream: u32, handler: nat)
    requires Watches(s.listeners, stream, handler) && NoRepeats(streams)
    requires forall t :: t in streams ==> t in s.listeners && s.listeners[t] != []
    ensures (var w := Woken(s, streams);
             && w.pending == s.pending && w.listeners == s.listeners && w.order == s.order
             && SeenBy(w.delivered, handler) == SeenBy(s.delivered, handler) + if stream in streams then [[]] else [])
    decreases |streams|
  {
    if streams != [] {
      var item := Item(streams[0], []);
      NoRepeatsTail(streams);
      DispatchedDelivery(s, item);
      GivenSeen(s.listeners, s.delivered, item, stream, handler);
      assert forall t :: t in streams[1..] ==> t in streams;
      WokenOnce(Dispatched(s, item), streams[1..], stream, handler);
      assert stream in streams <==> stream == streams[0] || stream in streams[1..];
    }
  }

  // ------------------------------------------- what subscribing hands over

  lemma {:induction false} SeenOfDeliveries(handler: nat, payloads: seq<Bytes>, other: nat)
    ensures SeenBy(Deliveries(handler, payloads), other) == if other == handler then payloads else []
  {
    if payloads != [] {
      var n := |payloads| - 1;
      SeenOfDeliveries(handler, payloads[..n], other);
      assert Deliveries(handler, payloads)[..n] == Deliveries(handler, payloads[..n]);
      assert payloads[..n] + [payloads[n]] == payloads;
    }
  }

  lemma {:induction false} OthersStay(items: seq<Item>, stream: u32, t: u32)
    ensures OfStream(NotOfStream(items, stream), t) == if t == stream then [] else OfStream(items, t)
  {
    if items != [] {
      OthersStay(items[1..], stream, t);
      var rest := NotOfStream(items[1..], stream);
      if items[0].stream == stream {
        assert [] + rest == rest && [] + OfStream(items[1..], t) == OfStream(items[1..], t);
      } else {
        assert ([items[0]] + rest)[1..] == rest;
      }
    }
  }

  // A new subscriber is given what was buffered for its stream from the newest to the oldest. Nobody else is
  // given anything, and what is buffered for other streams stays in order.
  lemma HandingOverSeen(s: Streams, stream: u32, handler: nat, other: nat, t: u32)
    ensures (var h := HandedOver(s, stream, handler);
             && SeenBy(h.delivered, other)
                == SeenBy(s.delivered, other) + (if other == handler then Reversed(OfStream(s.pending, stream)) else [])
             && OfStream(h.pending, t) == (if t == stream then [] else OfStream(s.pending, t)))
  {
    var given := Reversed(OfStream(s.pending, stream));
    SeenByAppend(s.delivered, Deliveries(handler, given), other);
    SeenOfDeliveries(handler, given, other);
    OthersStay(s.pending, stream, t);
  }

  // ------------------------------------------- everything reaches somebody

  // The payloads of a stream that have arrived, in order.
  function ArrivedOn(uses: seq<Use>, stream: u32): seq<Bytes>
  {
    if uses == [] then []
    else
      var last := uses[|uses| - 1];
      ArrivedOn(uses[..|uses| - 1], stream) + if last.Arrives? && last.item.stream == stream then [last.item.msg] else []
  }

  lemma {:induction false} OfStreamAppend(items: seq<Item>, item: Item, stream: u32)
    ensures OfStream(items + [item], stream) == OfStream(items, stream) + if item.stream == stream then [item.msg] else []
  {
    if items == [] {
      assert [item][1..] == [];
    } else {
      OfStreamAppend(items[1..], item, stream);
      assert (items + [item])[1..] == items[1..] + [item];
    }
  }

  // Nobody has subscribed to the stream, and the handler has subscribed to nothing.
  predicate Untouched(uses: seq<Use>, stream: u32, handler: nat)
  {
    forall i :: 0 <= i < |uses| && uses[i].Subscribes? ==> uses[i].stream != stream && uses[i].handler != handler
  }

  // The handler stays with the stream and subscribes to no other.
  predicate Stays(uses: seq<Use>, stream: u32, handler: nat)
  {
    forall i :: 0 <= i < |uses| ==>
      && (uses[i].Unsubscribes? ==> uses[i].stream != stream || uses[i].handler != handler)
      && (uses[i].Subscribes? && uses[i].handler == handler ==> uses[i].stream == stream)
  }

  // A handler that subscribes to nothing is on no stream, and has seen nothing.
  predicate Absent(s: Streams, handler: nat)
  {
    SeenBy(s.delivered, handler) == [] && forall t :: t in s.listeners ==> handler !in s.listeners[t]
  }

  lemma AbsentSubscribed(s: Streams, stream: u32, h: nat, handler: nat)
    requires Absent(s, handler) && h != handler
    ensures Absent(Subscribed(s, stream, h), handler)
  {}

  lemma AbsentUnsubscribed(s: Streams, stream: u32, h: nat, handler: nat)
    requires Absent(s, handler)
    ensures Absent(Unsubscribed(s, stream, h), handler)
  {
    if stream in s.listeners {
      WithoutKeeps(s.listeners[stream], h, handler);
    }
  }

  lemma AbsentStays(s: Streams, use: Use, handler: nat)
    requires Tidy(s) && Absent(s, handler) && (use.Subscribes? ==> use.handler != handler)
    ensures Absent(Used(s, use), handler)
  {
    match use
    case Subscribes(stream, h) =>
      AbsentSubscribed(s, stream, h, handler);
      HandingOverSeen(Subscribed(s, stream, h), stream, h, handler, stream);
    case Unsubscribes(stream, h) => AbsentUnsubscribed(s, stream, h, handler);
    case Arrives(item) => DispatchedSeen(s, item, handler);
  }

  // Who sees an arriving payload: the subscribers of its stream, once.
  lemma DispatchedSeen(s: Streams, item: Item, handler: nat)
    requires Tidy(s)
    ensures SeenBy(Dispatched(s, item).delivered, handler)
         == SeenBy(s.delivered, handler)
            + if item.stream in s.listeners && handler in s.listeners[item.stream] then [item.msg] else []
  {
    if item.stream in s.listeners {
      SeenByAppend(s.delivered, Broadcast(s.listeners[item.stream], item.msg), handler);
      SeenOfBroadcast(s.listeners[item.stream], item.msg, handler);
    }
  }

  // Without subscribers what arrives on a stream is buffered, in order.
  lemma BufferGrows(s: Streams, use: Use, stream: u32)
    requires Tidy(s) && stream !in s.listeners && (use.Subscribes? ==> use.stream != stream)
    ensures stream !in Used(s, use).listeners
    ensures OfStream(Used(s, use).pending, stream)
         == OfStream(s.pending, stream) + if use.Arrives? && use.item.stream == stream then [use.item.msg] else []
  {
    match use
    case Subscribes(t, h) => HandingOverSeen(Subscribed(s, t, h), t, h, h, stream);
    case Unsubscribes(t, h) =>
    case Arrives(item) =>
      if item.stream !in s.listeners || s.listeners[item.stream] == [] {
        OfStreamAppend(s.pending, item, stream);
      }
  }

  lemma {:induction false} BeforeSubscribing(uses: seq<Use>, stream: u32, handler: nat)
    requires Untouched(uses, stream, handler)
    ensures (var s := AfterUses(uses);
             Absent(s, handler) && stream !in s.listeners && OfStream(s.pending, stream) == ArrivedOn(uses, stream))
  {
    if uses != [] {
      var n := |uses| - 1;
      BeforeSubscribing(uses[..n], stream, handler);
      UsesStayTidy(uses[..n]);
      AbsentStays(AfterUses(uses[..n]), uses[n], handler);
      BufferGrows(AfterUses(uses[..n]), uses[n], stream);
    }
  }

  // The handler is on the stream and on no other, and nothing is buffered for it.
  predicate Attached(s: Streams, stream: u32, handler: nat)
  {
    && stream in s.listeners && handler in s.listeners[stream] && OfStream(s.pending, stream) == []
    && (forall t :: t in s.listeners && handler in s.listeners[t] ==> t == stream)
  }

  lemma AttachedStays(s: Streams, use: Use, stream: u32, handler: nat)
    requires Tidy(s) && Attached(s, stream, handler) && Stays([use], stream, handler)
    ensures Attached(Used(s, use), stream, handler)
    ensures SeenBy(Used(s, use).delivered, handler)
         == SeenBy(s.delivered, handler) + if use.Arrives? && use.item.stream == stream then [use.item.msg] else []
  {
    assert [use][0] == use;
    match use
    case Subscribes(t, h) => HandedOverAttached(s, t, h, stream, handler);
    case Unsubscribes(t, h) => UnsubscribedAttached(s, t, h, stream, handler);
    case Arrives(item) => DispatchedAttached(s, item, stream, handler);
  }

  lemma SubscribedAttached(s: Streams, t: u32, h: nat, stream: u32, handler: nat)
    requires Attached(s, stream, handler) && (h == handler ==> t == stream)
    ensures Attached(Subscribed(s, t, h), stream, handler)
  {}

  lemma HandedOverAttached(s: Streams, t: u32, h: nat, stream: u32, handler: nat)
    requires Attached(s, stream, handler) && (h == handler ==> t == stream)
    ensures (var after := HandedOver(Subscribed(s, t, h), t, h);
             Attached(after, stream, handler) && SeenBy(after.delivered, handler) == SeenBy(s.delivered, handler))
  {
    SubscribedAttached(s, t, h, stream, handler);
    HandingOverSeen(Subscribed(s, t, h), t, h, handler, stream);
  }

  lemma DispatchedAttached(s: Streams, item: Item, stream: u32, handler: nat)
    requires Tidy(s) && Attached(s, stream, handler)
    ensures Attached(Dispatched(s, item), stream, handler)
    ensures SeenBy(Dispatched(s, item).delivered, handler)
         == SeenBy(s.delivered, handler) + if item.stream == stream then [item.msg] else []
  {
    DispatchedSeen(s, item, handler);
    OfStreamAppend(s.pending, item, stream);
  }

  lemma UnsubscribedAttached(s: Streams, t: u32, h: nat, stream: u32, handler: nat)
    requires Tidy(s) && Attached(s, stream, handler) && (t != stream || h != handler)
    ensures Attached(Unsubscribed(s, t, h), stream, handler)
  {
    if t in s.listeners {
      WithoutKeeps(s.listeners[t], h, handler);
    }
  }

  lemma UsedLast(uses: seq<Use>, use: Use, stream: u32)
    ensures AfterUses(uses + [use]) == Used(AfterUses(uses), use)
    ensures ArrivedOn(uses + [use], stream)
         == ArrivedOn(uses, stream) + if use.Arrives? && use.item.stream == stream then [use.item.msg] else []
  {
    assert (uses + [use])[..|uses + [use]| - 1] == uses;
  }

  lemma StaysLast(uses: seq<Use>, use: Use, stream: u32, handler: nat)
    requires Stays(uses + [use], stream, handler)
    ensures Stays(uses, stream, handler) && Stays([use], stream, handler)
  {
    forall i | 0 <= i < |uses|
      ensures (uses[i].Unsubscribes? ==> uses[i].stream != stream || uses[i].handler != handler)
           && (uses[i].Subscribes? && uses[i].handler == handler ==> uses[i].stream == stream)
    {
      assert (uses + [use])[i] == uses[i];
    }
    assert (uses + [use])[|uses|] == use;
  }

  lemma AppendAssociates<T>(a: seq<T>, b: seq<T>, x: T)
    ensures a + (b + [x]) == (a + b) + [x]
  {}

  // From the subscription on the handler sees what arrives, behind what was handed over.
  lemma {:induction false} AfterSubscribing(before: seq<Use>, after: seq<Use>, stream: u32, handler: nat)
    requires Untouched(before, stream, handler) && Stays(after, stream, handler)
    ensures (var s := AfterUses(before + [Subscribes(stream, handler)] + after);
             && Attached(s, stream, handler)
             && SeenBy(s.delivered, handler) == Reversed(ArrivedOn(before, stream)) + ArrivedOn(after, stream))
  {
    var first := before + [Subscribes(stream, handler)];
    if after == [] {
      assert first + after == first;
      UsedLast(before, Subscribes(stream, handler), stream);
      JustSubscribed(before, stream, handler);
    } else {
      var front, last := after[..|after| - 1], after[|after| - 1];
      assert after == front + [last];
      StaysLast(front, last, stream, handler);
      AfterSubscribing(before, front, stream, handler);
      AppendAssociates(first, front, last);
      OneMoreUse(first + front, last, stream, handler);
      UsedLast(front, last, stream);
      AppendedToBoth(Reversed(ArrivedOn(before, stream)), ArrivedOn(front, stream), last, stream);
    }
  }

  lemma OneMoreUse(uses: seq<Use>, use: Use, stream: u32, handler: nat)
    requires Attached(AfterUses(uses), stream, handler) && Stays([use], stream, handler)
    ensures Attached(AfterUses(uses + [use]), stream, handler)
    ensures SeenBy(AfterUses(uses + [use]).delivered, handler)
         == SeenBy(AfterUses(uses).delivered, handler) + if use.Arrives? && use.item.stream == stream then [use.item.msg] else []
  {
    UsesStayTidy(uses);
    UsedLast(uses, use, stream);
    AttachedStays(AfterUses(uses), use, stream, handler);
  }

  lemma AppendedToBoth(a: seq<Bytes>, b: seq<Bytes>, use: Use, stream: u32)
    ensures (var more := if use.Arrives? && use.item.stream == stream then [use.item.msg] else [];
             (a + b) + more == a + (b + more))
  {}

  lemma JustSubscribed(before: seq<Use>, stream: u32, handler: nat)
    requires Untouched(before, stream, handler)
    ensures (var s := Used(AfterUses(before), Subscribes(stream, handler));
             && Attached(s, stream, handler)
             && SeenBy(s.delivered, handler) == Reversed(ArrivedOn(before, stream)) + [])
  {
    var s := AfterUses(before);
    BeforeSubscribing(before, stream, handler);
    HandingOverSeen(Subscribed(s, stream, handler), stream, handler, handler, stream);
    assert SeenBy(s.delivered, handler) + Reversed(OfStream(s.pending, stream)) == Reversed(OfStream(s.pending, stream)) + [];
  }

  // Nothing that arrives is dropped: the first handler of a stream that stays with it has seen, at any
  // moment, all that arrived before it subscribed, newest first, and all that arrived since, in order; and
  // nothing is buffered for the stream.
  lemma FirstSubscriberSeesAll(before: seq<Use>, after: seq<Use>, stream: u32, handler: nat)
    requires Untouched(before, stream, handler) && Stays(after, stream, handler)
    ensures (var s := AfterUses(before + [Subscribes(stream, handler)] + after);
             && SeenBy(s.delivered, handler) == Reversed(ArrivedOn(before, stream)) + ArrivedOn(after, stream)
             && OfStream(s.pending, stream) == [])
  {
    AfterSubscribing(before, after, stream, handler);
  }

  // --------------------------------------------------- what unsubscribing ends

  // After unsubscribing a handler sees nothing that arrives on the stream, and whatever arrives the others
  // see what they would have seen.
  lemma UnsubscribedSilent(s: Streams, stream: u32, handler: nat, item: Item, other: nat)
    requires Tidy(s)
    ensures (var seen := SeenBy(Dispatched(Unsubscribed(s, stream, handler), item).delivered, other);
             if other == handler && item.stream == stream then seen == SeenBy(s.delivered, other)
             else seen == SeenBy(Dispatched(s, item).delivered, other))
  {
    UnsubscribedTidy(s, stream, handler);
    DispatchedSeen(s, item, other);
    DispatchedSeen(Unsubscribed(s, stream, handler), item, other);
    if stream in s.listeners {
      WithoutKeeps(s.listeners[stream], handler, other);
    }
  }
}
