// The client end of a sealed connection, apps/pwa/src/tunnel.ts: the salt exchange, frames held back
// until the session exists, the chain that opens them one at a time, and what a failure does.
// Each method runs one stretch of code between two awaits; what it does is a function of the state.
module Tunnel {
  import opened Results
  import opened BigEndian
  import opened SealedChannel
  import opened Streams

  const CONTROL_STREAM: u32 := 0
  const SESSION_ACK: Bytes := [0x6b]
  const NO_SALT: Bytes := Zeros(32)

  function Zeros(n: nat): Bytes
  {
    if n == 0 then [] else [0] + Zeros(n - 1)
  }

  // A carrier frame, or bytes that are not a data frame.
  datatype Carrier = Carrier(stream: u32, wire: Wire) | NotData

  datatype TunnelError =
    | NotEstablished
    | BadCarrier
    | NoSession
    | MissingCounter
    | OutOfOrder(received: nat, expected: nat)
    | FailedAuthentication

  // What the promises of the handshake and the device step have settled to, if they have, and who was
  // told that the tunnel closed.
  datatype Outcomes = Outcomes(
    handshake: Option<Result<(), TunnelError>>, device: Option<Result<(), TunnelError>>,
    closedHandlers: seq<nat>, told: seq<(nat, TunnelError)>)

  datatype ClientState = ClientState(
    root: Bytes, deviceStep: bool,
    sealKey: Option<Key>, openKey: Option<Key>, sealCounter: nat, openCounter: nat,
    ready: bool, deferred: seq<Carrier>, chain: seq<Carrier>,
    acknowledged: bool, deviceOpen: bool, deviceBound: bool, toDevice: seq<Bytes>,
    streams: Streams, outcomes: Outcomes, failure: Option<TunnelError>, socket: seq<Carrier>)

  // ---------------------------------------------------------------- sealing

  // The frame a send will write once its encryption finishes. Key and counter are fixed at the call.
  function Sealing(key: Key, counter: nat, stream: u32, msg: Bytes): Carrier
  {
    Carrier(stream, Frame(key, counter, stream, msg))
  }

  function Sending(c: ClientState, stream: u32, msg: Bytes): (ClientState, Result<Carrier, TunnelError>)
  {
    match c.sealKey
    case None => (c, Err(NotEstablished))
    case Some(key) => (c.(sealCounter := c.sealCounter + 1), Ok(Sealing(key, c.sealCounter, stream, msg)))
  }

  // ---------------------------------------------------------------- opening

  function OpenFrame(c: ClientState, frame: Carrier): Result<Item, TunnelError>
  {
    match frame
    case NotData => Err(BadCarrier)
    case Carrier(stream, wire) =>
      if c.openKey.None? then Err(NoSession)
      else if wire.Short? then Err(MissingCounter)
      else if ValueBE(wire.counter) != c.openCounter then Err(OutOfOrder(ValueBE(wire.counter), c.openCounter))
      else
        match Decrypt(c.openKey.value, NonceBytes(c.openCounter), AdditionalData(stream, c.openCounter), wire.body)
        case None => Err(FailedAuthentication)
        case Some(msg) => Ok(Item(stream, msg))
  }

  function IsAck(msg: Bytes): bool
  {
    msg == SESSION_ACK
  }

  // A promise settles once; whatever comes later changes nothing.
  function Settled(promise: Option<Result<(), TunnelError>>, outcome: Result<(), TunnelError>): Option<Result<(), TunnelError>>
  {
    if promise.None? then Some(outcome) else promise
  }

  // The acknowledgement ends the handshake. It opens the device step, or skips it on a connection that
  // does not run it.
  function Acknowledged(c: ClientState): ClientState
  {
    c.(acknowledged := true, outcomes := c.outcomes.(handshake := Settled(c.outcomes.handshake, Ok(()))),
       deviceOpen := c.deviceOpen || c.deviceStep, deviceBound := c.deviceBound || !c.deviceStep)
  }

  // What becomes of an opened item: the acknowledgement, the device step's, or a subscriber's.
  function Routed(c: ClientState, item: Item): ClientState
  {
    if !c.acknowledged && item.stream == CONTROL_STREAM && IsAck(item.msg) then Acknowledged(c)
    else if item.stream == CONTROL_STREAM && c.deviceOpen then c.(toDevice := c.toDevice + [item.msg])
    else c.(streams := Dispatched(c.streams, item))
  }

  function Accepted(c: ClientState, item: Item): ClientState
  {
    Routed(c.(openCounter := c.openCounter + 1), item)
  }

  function Telling(handlers: seq<nat>, error: TunnelError): seq<(nat, TunnelError)>
  {
    seq(|handlers|, i requires 0 <= i < |handlers| => (handlers[i], error))
  }

  // The outcomes after a failure: the close handlers hear of the first one after the acknowledgement, a
  // handshake or an open device step that was waiting is refused.
  function Refused(o: Outcomes, wasAlive: bool, deviceOpen: bool, error: TunnelError): Outcomes
  {
    o.(told := if wasAlive then o.told + Telling(o.closedHandlers, error) else o.told,
       handshake := Settled(o.handshake, Err(error)),
       device := if deviceOpen then Settled(o.device, Err(error)) else o.device)
  }

  function Shut(c: ClientState, error: TunnelError): ClientState
  {
    c.(failure := Some(error), deviceOpen := false,
       outcomes := Refused(c.outcomes, c.acknowledged && c.failure.None?, c.deviceOpen, error))
  }

  // A failure: outcomes, the device step closed, and every stream with subscribers woken.
  function Failed(c: ClientState, error: TunnelError): ClientState
  {
    Shut(c, error).(streams := Woken(c.streams, c.streams.order))
  }

  // One link of the chain: a failure is reported and the next frame is tried all the same.
  function Opening(c: ClientState): ClientState
    requires c.chain != []
  {
    var d := c.(chain := c.chain[1..]);
    match OpenFrame(d, c.chain[0])
    case Err(error) => Failed(d, error)
    case Ok(item) => Accepted(d, item)
  }

  function Absorbing(c: ClientState, frame: Carrier): ClientState
  {
    if c.ready then c.(chain := c.chain + [frame]) else c.(deferred := c.deferred + [frame])
  }

  function Deriving(c: ClientState, salt: Bytes, written: nat): ClientState
  {
    c.(openKey := Some(Key(c.root, salt, Daemon)), sealCounter := written, ready := true,
       deferred := [], chain := c.chain + c.deferred)
  }

  function Fresh(root: Bytes, deviceStep: bool): ClientState
  {
    ClientState(root, deviceStep, None, None, 0, 0, false, [], [], false, false, !deviceStep, [], SILENT,
                Outcomes(None, if deviceStep then None else Some(Ok(())), [], []), None, [])
  }

  function Beginning(c: ClientState, salt: Bytes): (ClientState, Carrier)
  {
    (c.(sealKey := Some(Key(c.root, NO_SALT, Client)), openKey := Some(Key(c.root, NO_SALT, Daemon)),
        sealCounter := c.sealCounter + 1),
     Sealing(Key(c.root, NO_SALT, Client), c.sealCounter, CONTROL_STREAM, salt))
  }

  // ----------------------------------------------------- what subscribers see

  function Consumed(c: ClientState, items: seq<Item>): ClientState
    decreases |items|
  {
    if items == [] then c else Consumed(Accepted(c, items[0]), items[1..])
  }

  // Whether an item is for the tunnel itself: the acknowledgement, or the device step's.
  predicate Kept(c: ClientState, item: Item)
  {
    item.stream == CONTROL_STREAM && (c.deviceOpen || (!c.acknowledged && IsAck(item.msg)))
  }

  lemma AcceptedStreams(c: ClientState, item: Item)
    ensures Accepted(c, item).streams == if Kept(c, item) then c.streams else Dispatched(c.streams, item)
  {}

  // Once the handshake is over, the control stream is the subscribers' as well.
  predicate HandshakeOver(c: ClientState)
  {
    c.acknowledged && !c.deviceOpen
  }

  lemma HandshakeStaysOver(c: ClientState, item: Item)
    requires HandshakeOver(c)
    ensures HandshakeOver(Accepted(c, item))
  {}

  // A subscriber sees exactly the opened payloads of its stream, each once, in the order they were opened.
  lemma {:induction false} SubscriberSeesStream(c: ClientState, items: seq<Item>, stream: u32, handler: nat)
    requires Watches(c.streams.listeners, stream, handler) && (stream == CONTROL_STREAM ==> HandshakeOver(c))
    ensures SeenBy(Consumed(c, items).streams.delivered, handler)
         == SeenBy(c.streams.delivered, handler) + OfStream(items, stream)
    decreases |items|
  {
    if items != [] {
      var d, item := Accepted(c, items[0]), items[0];
      AcceptedStreams(c, item);
      DispatchedDelivery(c.streams, item);
      GivenSeen(c.streams.listeners, c.streams.delivered, item, stream, handler);
      if stream == CONTROL_STREAM {
        HandshakeStaysOver(c, item);
      }
      SubscriberSeesStream(d, items[1..], stream, handler);
      FirstSeen(SeenBy(c.streams.delivered, handler), items, stream, SeenBy(d.streams.delivered, handler));
    }
  }

  lemma FirstSeen(before: seq<Bytes>, items: seq<Item>, stream: u32, after: seq<Bytes>)
    requires items != [] && after == (if items[0].stream == stream then before + [items[0].msg] else before)
    ensures after + OfStream(items[1..], stream) == before + OfStream(items, stream)
  {
    assert [] + OfStream(items[1..], stream) == OfStream(items[1..], stream);
  }

  // While the device step is open it owns the control stream: it gets every control payload in order, and
  // the subscribers get what they would get if there had been none.
  lemma {:induction false} DeviceStepOwnsControl(c: ClientState, items: seq<Item>)
    requires c.acknowledged && c.deviceOpen
    ensures Consumed(c, items).toDevice == c.toDevice + OfStream(items, CONTROL_STREAM)
    ensures Consumed(c, items).streams == Consumed(c, NotOfStream(items, CONTROL_STREAM)).streams
    decreases |items|
  {
    if items != [] {
      DeviceStepOwnsControl(Accepted(c, items[0]), items[1..]);
      if items[0].stream == CONTROL_STREAM {
        ControlConsumed(c, items);
      } else {
        OtherConsumed(c, items);
      }
    }
  }

  // One control item in front changes what the device step gets and nothing else.
  lemma ControlConsumed(c: ClientState, items: seq<Item>)
    requires c.acknowledged && c.deviceOpen && items != [] && items[0].stream == CONTROL_STREAM
    ensures Accepted(c, items[0]).toDevice + OfStream(items[1..], CONTROL_STREAM) == c.toDevice + OfStream(items, CONTROL_STREAM)
    ensures Consumed(Accepted(c, items[0]), NotOfStream(items[1..], CONTROL_STREAM)).streams
         == Consumed(c, NotOfStream(items, CONTROL_STREAM)).streams
  {
    var rest := NotOfStream(items[1..], CONTROL_STREAM);
    AcceptedControl(c, items[0]);
    NoControlLeft(items[1..]);
    SameForStreams(Accepted(c, items[0]), c, rest);
    assert [] + rest == rest;
    AppendOne(c.toDevice, items[0].msg, OfStream(items[1..], CONTROL_STREAM));
  }

  lemma AcceptedControl(c: ClientState, item: Item)
    requires c.acknowledged && c.deviceOpen && item.stream == CONTROL_STREAM
    ensures Accepted(c, item).toDevice == c.toDevice + [item.msg] && Accepted(c, item).streams == c.streams
  {}

  lemma AppendOne<T>(s: seq<T>, x: T, t: seq<T>)
    ensures (s + [x]) + t == s + ([x] + t)
  {}

  // And one of another stream is consumed in its place.
  lemma OtherConsumed(c: ClientState, items: seq<Item>)
    requires items != [] && items[0].stream != CONTROL_STREAM
    ensures Accepted(c, items[0]).toDevice + OfStream(items[1..], CONTROL_STREAM) == c.toDevice + OfStream(items, CONTROL_STREAM)
    ensures Consumed(Accepted(c, items[0]), NotOfStream(items[1..], CONTROL_STREAM)).streams
         == Consumed(c, NotOfStream(items, CONTROL_STREAM)).streams
  {
    assert OfStream(items, CONTROL_STREAM) == OfStream(items[1..], CONTROL_STREAM);
    FirstConsumed(c, items[0], NotOfStream(items[1..], CONTROL_STREAM));
  }

  lemma {:induction false} NoControlLeft(items: seq<Item>)
    ensures forall i :: 0 <= i < |NotOfStream(items, CONTROL_STREAM)| ==> NotOfStream(items, CONTROL_STREAM)[i].stream != CONTROL_STREAM
  {
    if items != [] {
      NoControlLeft(items[1..]);
    }
  }

  lemma FirstConsumed(c: ClientState, item: Item, rest: seq<Item>)
    ensures Consumed(c, [item] + rest) == Consumed(Accepted(c, item), rest)
  {
    assert ([item] + rest)[1..] == rest;
  }

  // What subscribers get of the other streams depends on the subscribers alone.
  lemma {:induction false} SameForStreams(c: ClientState, d: ClientState, items: seq<Item>)
    requires c.streams == d.streams && forall i :: 0 <= i < |items| ==> items[i].stream != CONTROL_STREAM
    ensures Consumed(c, items).streams == Consumed(d, items).streams
    decreases |items|
  {
    if items != [] {
      SameForStreams(Accepted(c, items[0]), Accepted(d, items[0]), items[1..]);
    }
  }

  // The handshake ends with the first acknowledgement among what is opened, and with nothing else; then the
  // device step is open, or done with on a connection that does not run it.
  lemma {:induction false} AcknowledgedIff(c: ClientState, items: seq<Item>)
    requires !c.acknowledged && c.outcomes.handshake.None?
    ensures (var d := Consumed(c, items);
             && (d.acknowledged <==> Item(0, [0x6b]) in items)
             && d.outcomes.handshake == (if d.acknowledged then Some(Ok(())) else None)
             && (d.acknowledged ==> if c.deviceStep then d.deviceOpen else d.deviceBound)
             && (!d.acknowledged ==> d.deviceOpen == c.deviceOpen && d.deviceBound == c.deviceBound))
    decreases |items|
  {
    if items != [] {
      assert items == [items[0]] + items[1..];
      if items[0] == Item(0, [0x6b]) {
        StaysAcknowledged(Accepted(c, items[0]), items[1..]);
      } else {
        AcknowledgedIff(Accepted(c, items[0]), items[1..]);
      }
    }
  }

  lemma {:induction false} StaysAcknowledged(c: ClientState, items: seq<Item>)
    requires c.acknowledged
    ensures (var d := Consumed(c, items);
             d.acknowledged && d.outcomes == c.outcomes && d.deviceOpen == c.deviceOpen && d.deviceBound == c.deviceBound)
    decreases |items|
  {
    if items != [] {
      StaysAcknowledged(Accepted(c, items[0]), items[1..]);
    }
  }

  // ---------------------------------------------------------------- failures

  function FailedAll(c: ClientState, errors: seq<TunnelError>): ClientState
  {
    if errors == [] then c else Failed(FailedAll(c, errors[..|errors| - 1]), errors[|errors| - 1])
  }

  lemma {:induction false} FailuresRefuse(c: ClientState, errors: seq<TunnelError>, stream: u32, handler: nat)
    requires errors != [] && c.failure.None? && Tidy(c.streams) && Watches(c.streams.listeners, stream, handler)
    ensures (var d := FailedAll(c, errors);
             && d.failure == Some(errors[|errors| - 1]) && !d.deviceOpen && d.acknowledged == c.acknowledged
             && d.outcomes == Refused(c.outcomes, c.acknowledged, c.deviceOpen, errors[0])
             && d.streams.listeners == c.streams.listeners && d.streams.order == c.streams.order
             && d.streams.pending == c.streams.pending
             && SeenBy(d.streams.delivered, handler) == SeenBy(c.streams.delivered, handler) + Wakes(|errors|))
  {
    var n := |errors| - 1;
    var before := FailedAll(c, errors[..n]);
    if n > 0 {
      FailuresRefuse(c, errors[..n], stream, handler);
      assert errors[..n][0] == errors[0];
    } else {
      assert SeenBy(c.streams.delivered, handler) + Wakes(0) == SeenBy(c.streams.delivered, handler);
    }
    WokenOnce(before.streams, before.streams.order, stream, handler);
    OneMoreWake(SeenBy(c.streams.delivered, handler), n);
  }

  // However often a tunnel fails, its close handlers hear of the first failure only, and only if the handshake
  // was over; the handshake and an open device step that had no outcome get the first error; and every
  // subscriber is woken once per failure.
  lemma FailureIsToldOnce(c: ClientState, errors: seq<TunnelError>, stream: u32, handler: nat)
    requires errors != [] && c.failure.None? && Tidy(c.streams) && Watches(c.streams.listeners, stream, handler)
    ensures (var d, first := FailedAll(c, errors), errors[0];
             && d.failure == Some(errors[|errors| - 1]) && !d.deviceOpen && d.acknowledged == c.acknowledged
             && d.streams.pending == c.streams.pending
             && SeenBy(d.streams.delivered, handler) == SeenBy(c.streams.delivered, handler) + seq(|errors|, _ => [])
             && (var o, o' := c.outcomes, d.outcomes;
                 && o'.told == o.told + (if c.acknowledged then seq(|o.closedHandlers|, i requires 0 <= i < |o.closedHandlers| => (o.closedHandlers[i], first)) else [])
                 && o'.handshake == (if o.handshake.Some? then o.handshake else Some(Err(first)))
                 && o'.device == (if o.device.None? && c.deviceOpen then Some(Err(first)) else o.device)))
  {
    FailuresRefuse(c, errors, stream, handler);
    WakesAreEmpty(|errors|);
    if !c.acknowledged {
      assert c.outcomes.told + [] == c.outcomes.told;
    }
  }

  lemma {:induction false} WakesAreEmpty(n: nat)
    ensures Wakes(n) == seq(n, _ => [])
  {
    if n > 0 {
      WakesAreEmpty(n - 1);
    }
  }

  function Wakes(n: nat): seq<Bytes>
  {
    if n == 0 then [] else Wakes(n - 1) + [[]]
  }

  lemma OneMoreWake(seen: seq<Bytes>, n: nat)
    ensures (seen + Wakes(n)) + [[]] == seen + Wakes(n + 1)
  {}

  function OpeningAll(c: ClientState, n: nat): ClientState
    requires n <= |c.chain|
  {
    if n == 0 then c
    else
      var d := OpeningAll(c, n - 1);
      if d.chain == [] then d else Opening(d)
  }

  // Why each of the first n queued frames is refused.
  function Refusals(c: ClientState, n: nat): seq<TunnelError>
    requires n <= |c.chain| && forall i :: 0 <= i < n ==> OpenFrame(c, c.chain[i]).Err?
  {
    if n == 0 then [] else Refusals(c, n - 1) + [OpenFrame(c, c.chain[n - 1]).error]
  }

  lemma FailedAllAppend(c: ClientState, errors: seq<TunnelError>, error: TunnelError)
    ensures FailedAll(c, errors + [error]) == Failed(FailedAll(c, errors), error)
  {
    assert (errors + [error])[..|errors|] == errors;
  }

  // A failure changes nothing the next frame is checked against.
  lemma {:induction false} ChecksSurvive(c: ClientState, errors: seq<TunnelError>)
    ensures (var d := FailedAll(c, errors);
             d.chain == c.chain && d.openKey == c.openKey && d.openCounter == c.openCounter)
  {
    if errors != [] {
      ChecksSurvive(c, errors[..|errors| - 1]);
    }
  }

  lemma {:induction false} FailedAllChain(c: ClientState, errors: seq<TunnelError>, chain: seq<Carrier>)
    ensures FailedAll(c, errors).(chain := chain) == FailedAll(c.(chain := chain), errors)
  {
    if errors != [] {
      FailedAllChain(c, errors[..|errors| - 1], chain);
    }
  }

  // One more bad frame after some failures.
  lemma BadFrame(c: ClientState, errors: seq<TunnelError>)
    requires c.chain != [] && OpenFrame(c, c.chain[0]).Err?
    ensures FailedAll(c, errors).chain == c.chain
    ensures Opening(FailedAll(c, errors)) == FailedAll(c.(chain := c.chain[1..]), errors + [OpenFrame(c, c.chain[0]).error])
  {
    var d, error := FailedAll(c, errors), OpenFrame(c, c.chain[0]).error;
    ChecksSurvive(c, errors);
    assert OpenFrame(d.(chain := d.chain[1..]), d.chain[0]) == Err(error);
    FailedAllChain(c, errors, c.chain[1..]);
    FailedAllAppend(c.(chain := c.chain[1..]), errors, error);
  }

  lemma SameCheck(c: ClientState, d: ClientState, frame: Carrier)
    requires c.openKey == d.openKey && c.openCounter == d.openCounter
    ensures OpenFrame(c, frame) == OpenFrame(d, frame)
  {}

  // Any number of bad frames at the head of the chain do what as many failures do.
  lemma {:induction false} BadFramesAreFailures(c: ClientState, n: nat)
    requires n <= |c.chain| && forall i :: 0 <= i < n ==> OpenFrame(c, c.chain[i]).Err?
    ensures OpeningAll(c, n) == FailedAll(c.(chain := c.chain[n..]), Refusals(c, n))
  {
    if n > 0 {
      BadFramesAreFailures(c, n - 1);
      var b := c.(chain := c.chain[n - 1..]);
      assert b.chain[0] == c.chain[n - 1] && b.chain[1..] == c.chain[n..];
      SameCheck(b, c, c.chain[n - 1]);
      BadFrame(b, Refusals(c, n - 1));
    } else {
      assert c.chain[0..] == c.chain;
    }
  }

  // And every frame after them opens, or is refused, as if they had never arrived.
  lemma BadFramesAreSkipped(c: ClientState, n: nat, frame: Carrier)
    requires n <= |c.chain| && forall i :: 0 <= i < n ==> OpenFrame(c, c.chain[i]).Err?
    ensures OpeningAll(c, n) == FailedAll(c.(chain := c.chain[n..]), Refusals(c, n))
    ensures OpeningAll(c, n).chain == c.chain[n..] && OpenFrame(OpeningAll(c, n), frame) == OpenFrame(c, frame)
  {
    BadFramesAreFailures(c, n);
    ChecksSurvive(c.(chain := c.chain[n..]), Refusals(c, n));
  }

  // ------------------------------------------------------------- the class

  class Tunnel {
    const root: Bytes
    const deviceStepEnabled: bool
    var sealKey: Option<Key>
    var openKey: Option<Key>
    var sealCounter: nat
    var openCounter: nat
    var sessionReady: bool
    var deferred: seq<Carrier>
    var chain: seq<Carrier>
    var acknowledged: bool
    var deviceStepOpen: bool
    var deviceBound: bool
    var deviceMessages: seq<Bytes>
    var pending: seq<Item>
    var listeners: map<u32, seq<nat>>
    var streamOrder: seq<u32>
    var delivered: seq<Delivery>
    var handshakeOutcome: Option<Result<(), TunnelError>>
    var deviceOutcome: Option<Result<(), TunnelError>>
    var closedHandlers: seq<nat>
    var closedTold: seq<(nat, TunnelError)>
    var closedError: Option<TunnelError>
    var socket: seq<Carrier>

    function Subscribers(): Streams
      reads this
    {
      Streams(listeners, streamOrder, pending, delivered)
    }

    function Waiting(): Outcomes
      reads this
    {
      Outcomes(handshakeOutcome, deviceOutcome, closedHandlers, closedTold)
    }

    function State(): ClientState
      reads this
    {
      ClientState(root, deviceStepEnabled, sealKey, openKey, sealCounter, openCounter, sessionReady, deferred, chain,
                  acknowledged, deviceStepOpen, deviceBound, deviceMessages, Subscribers(), Waiting(), closedError, socket)
    }

    constructor (root: Bytes, deviceStepEnabled: bool)
      ensures State() == Fresh(root, deviceStepEnabled)
    {
      this.root := root;
      this.deviceStepEnabled := deviceStepEnabled;
      sealKey, openKey, sealCounter, openCounter := None, None, 0, 0;
      sessionReady, deferred, chain := false, [], [];
      acknowledged, deviceStepOpen, deviceBound, deviceMessages := false, false, !deviceStepEnabled, [];
      pending, listeners, streamOrder, delivered := [], map[], [], [];
      handshakeOutcome, deviceOutcome := None, if deviceStepEnabled then None else Some(Ok(()));
      closedHandlers, closedTold, closedError, socket := [], [], None, [];
    }

    // The start of `send`: the counter is taken before the encryption is awaited.
    method BeginSend(stream: u32, plaintext: Bytes) returns (r: Result<Carrier, TunnelError>)
      modifies this
      ensures (State(), r) == Sending(old(State()), stream, plaintext)
    {
      if sealKey.None? {
        return Err(NotEstablished);
      }
      var counter := sealCounter;
      sealCounter := sealCounter + 1;
      r := Ok(Sealing(sealKey.value, counter, stream, plaintext));
    }

    // The end of `send`: the encrypted frame goes out.
    method FinishSend(frame: Carrier)
      modifies this
      ensures State() == old(State()).(socket := old(socket) + [frame])
    {
      socket := socket + [frame];
    }

    // The provisional keys are installed and the salt starts being sealed.
    method BeginHandshake(salt: Bytes) returns (frame: Carrier)
      modifies this
      ensures (State(), frame) == Beginning(old(State()), salt)
    {
      sealKey := Some(Key(root, NO_SALT, Client));
      openKey := Some(Key(root, NO_SALT, Daemon));
      var r := BeginSend(CONTROL_STREAM, salt);
      frame := r.value;
    }

    method InstallSealKey(salt: Bytes)
      modifies this
      ensures State() == old(State()).(sealKey := Some(Key(root, salt, Client)))
    {
      sealKey := Some(Key(root, salt, Client));
    }

    // The rest of the derivation: the count is carried over and the held frames are queued.
    method InstallOpenKey(salt: Bytes, written: nat)
      modifies this
      ensures State() == Deriving(old(State()), salt, written)
    {
      openKey := Some(Key(root, salt, Daemon));
      sealCounter := written;
      sessionReady := true;
      DrainDeferred();
    }

    method Absorb(frame: Carrier)
      modifies this
      ensures State() == Absorbing(old(State()), frame)
    {
      if !sessionReady {
        deferred := deferred + [frame];
        return;
      }
      Enqueue(frame);
    }

    method Enqueue(frame: Carrier)
      modifies this`chain
      ensures State() == old(State()).(chain := old(chain) + [frame])
    {
      chain := chain + [frame];
    }

    method DrainDeferred()
      modifies this`deferred, this`chain
      ensures State() == old(State()).(deferred := [], chain := old(chain) + old(deferred))
    {
      var held := deferred;
      deferred := [];
      var i := 0;
      while i < |held|
        invariant 0 <= i <= |held|
        invariant deferred == [] && chain == old(chain) + held[..i]
      {
        Enqueue(held[i]);
        i := i + 1;
      }
      assert held[..i] == held;
    }

    // Checks one frame against the expected counter and the open key.
    method Authenticate(frame: Carrier) returns (r: Result<Item, TunnelError>)
      ensures r == OpenFrame(State(), frame)
    {
      if frame.NotData? {
        return Err(BadCarrier);
      }
      if openKey.None? {
        return Err(NoSession);
      }
      if frame.wire.Short? {
        return Err(MissingCounter);
      }
      var counter := ValueBE(frame.wire.counter);
      if counter != openCounter {
        return Err(OutOfOrder(counter, openCounter));
      }
      var plaintext := Decrypt(openKey.value, NonceBytes(counter), AdditionalData(frame.stream, counter), frame.wire.body);
      if plaintext.None? {
        return Err(FailedAuthentication);
      }
      return Ok(Item(frame.stream, plaintext.value));
    }

    method Accept(item: Item)
      modifies this`openCounter, this`acknowledged, this`deviceStepOpen, this`deviceBound, this`deviceMessages
      modifies this`pending, this`delivered, this`handshakeOutcome
      ensures State() == Accepted(old(State()), item)
    {
      openCounter := openCounter + 1;
      Route(item);
    }

    method Route(item: Item)
      modifies this`acknowledged, this`deviceStepOpen, this`deviceBound, this`deviceMessages
      modifies this`pending, this`delivered, this`handshakeOutcome
      ensures State() == Routed(old(State()), item)
    {
      if !acknowledged && item.stream == CONTROL_STREAM && IsAck(item.msg) {
        Acknowledge();
      } else if item.stream == CONTROL_STREAM && deviceStepOpen {
        deviceMessages := deviceMessages + [item.msg];
      } else {
        Dispatch(item);
      }
    }

    method Acknowledge()
      modifies this`acknowledged, this`deviceStepOpen, this`deviceBound, this`handshakeOutcome
      ensures State() == Acknowledged(old(State()))
    {
      acknowledged := true;
      handshakeOutcome := Settled(handshakeOutcome, Ok(()));
      if !deviceStepEnabled {
        deviceBound := true;
      } else {
        deviceStepOpen := true;
      }
    }

    // One link of the chain: the head is opened and handed on, or its failure is reported.
    method OpenNext()
      requires chain != []
      modifies this
      ensures State() == Opening(old(State()))
    {
      var frame := chain[0];
      chain := chain[1..];
      var r := Authenticate(frame);
      if r.Err? {
        Fail(r.error);
      } else {
        Accept(r.value);
      }
    }

    method Fail(error: TunnelError)
      modifies this`closedTold, this`closedError, this`handshakeOutcome, this`deviceOutcome, this`deviceStepOpen
      modifies this`pending, this`delivered
      ensures State() == Failed(old(State()), error)
    {
      ShutDown(error);
      Wake();
    }

    method ShutDown(error: TunnelError)
      modifies this`closedTold, this`closedError, this`handshakeOutcome, this`deviceOutcome, this`deviceStepOpen
      ensures State() == Shut(old(State()), error)
    {
      var wasAlive := acknowledged && closedError.None?;
      Refuse(wasAlive, error);
      closedError := Some(error);
      deviceStepOpen := false;
    }

    // Everybody who waits for an outcome hears of the failure.
    method Refuse(wasAlive: bool, error: TunnelError)
      modifies this`closedTold, this`handshakeOutcome, this`deviceOutcome
      ensures Waiting() == Refused(old(Waiting()), wasAlive, deviceStepOpen, error)
    {
      if wasAlive {
        TellClosed(error);
      }
      handshakeOutcome := Settled(handshakeOutcome, Err(error));
      if deviceStepOpen {
        deviceOutcome := Settled(deviceOutcome, Err(error));
      }
    }

    method TellClosed(error: TunnelError)
      modifies this`closedTold
      ensures closedTold == old(closedTold) + Telling(closedHandlers, error)
    {
      var i := 0;
      while i < |closedHandlers|
        invariant 0 <= i <= |closedHandlers|
        invariant closedTold == old(closedTold) + Telling(closedHandlers[..i], error)
      {
        closedTold := closedTold + [(closedHandlers[i], error)];
        assert Telling(closedHandlers[..i + 1], error) == Telling(closedHandlers[..i], error) + [(closedHandlers[i], error)];
        i := i + 1;
      }
      assert closedHandlers[..i] == closedHandlers;
    }

    // An empty payload for every stream that has subscribers.
    method Wake()
      modifies this`pending, this`delivered
      ensures Subscribers() == Woken(old(Subscribers()), streamOrder)
    {
      var i := 0;
      assert streamOrder[0..] == streamOrder;
      while i < |streamOrder|
        invariant 0 <= i <= |streamOrder|
        invariant Woken(Subscribers(), streamOrder[i..]) == Woken(old(Subscribers()), streamOrder)
      {
        assert streamOrder[i..][1..] == streamOrder[i + 1..];
        Dispatch(Item(streamOrder[i], []));
        i := i + 1;
      }
    }

    // The device step ends with the daemon's verdict; only an acceptance settles it here.
    method SettleDevice(bound: bool)
      modifies this`deviceStepOpen, this`deviceBound, this`deviceOutcome
      ensures !deviceStepOpen && deviceBound == bound
      ensures deviceOutcome == if bound then Settled(old(deviceOutcome), Ok(())) else old(deviceOutcome)
    {
      deviceStepOpen := false;
      deviceBound := bound;
      if bound {
        deviceOutcome := Settled(deviceOutcome, Ok(()));
      }
    }

    // Closing is told to each registered handler once.
    method OnClosed(handler: nat)
      modifies this`closedHandlers
      ensures closedHandlers == if handler in old(closedHandlers) then old(closedHandlers) else old(closedHandlers) + [handler]
    {
      if handler !in closedHandlers {
        closedHandlers := closedHandlers + [handler];
      }
    }

    method ForgetClosed(handler: nat)
      modifies this`closedHandlers
      ensures closedHandlers == Without(old(closedHandlers), handler)
    {
      closedHandlers := Without(closedHandlers, handler);
    }

    method Dispatch(item: Item)
      modifies this`pending, this`delivered
      ensures Subscribers() == Dispatched(old(Subscribers()), item)
      ensures item.stream in listeners && listeners[item.stream] != [] ==>
        && pending == old(pending) && |delivered| == |old(delivered)| + |listeners[item.stream]| && old(delivered) <= delivered
        && forall i: nat :: i < |listeners[item.stream]| ==>
             delivered[|old(delivered)| + i] == Delivery(listeners[item.stream][i], item.msg)
      ensures item.stream !in listeners || listeners[item.stream] == [] ==>
        delivered == old(delivered) && pending == old(pending) + [item]
    {
      if item.stream !in listeners || listeners[item.stream] == [] {
        pending := pending + [item];
        return;
      }
      var handlers := listeners[item.stream];
      var i := 0;
      while i < |handlers|
        invariant 0 <= i <= |handlers|
        invariant delivered == old(delivered) + Broadcast(handlers[..i], item.msg) && pending == old(pending)
      {
        delivered := delivered + [Delivery(handlers[i], item.msg)];
        assert Broadcast(handlers[..i + 1], item.msg) == Broadcast(handlers[..i], item.msg) + [Delivery(handlers[i], item.msg)];
        i := i + 1;
      }
      assert handlers[..i] == handlers;
    }

    // Subscribing hands over what was buffered for the stream, newest first, and keeps the rest in order.
    method On(stream: u32, handler: nat)
      modifies this`listeners, this`streamOrder, this`pending, this`delivered
      ensures Subscribers() == HandedOver(Subscribed(old(Subscribers()), stream, handler), stream, handler)
      ensures stream in listeners && handler in listeners[stream]
      ensures forall t: u32 :: t != stream ==> (t in listeners <==> t in old(listeners)) && (t in listeners ==> listeners[t] == old(listeners)[t])
      ensures SeenBy(delivered, handler) == SeenBy(old(delivered), handler) + Reversed(OfStream(old(pending), stream))
      ensures forall other: nat :: other != handler ==> SeenBy(delivered, other) == SeenBy(old(delivered), other)
      ensures forall t: u32 :: OfStream(pending, t) == if t == stream then [] else OfStream(old(pending), t)
    {
      ghost var before := Subscribed(Subscribers(), stream, handler);
      forall other: nat, t: u32
        ensures (var h := HandedOver(before, stream, handler);
                 && SeenBy(h.delivered, other)
                    == SeenBy(before.delivered, other) + (if other == handler then Reversed(OfStream(before.pending, stream)) else [])
                 && OfStream(h.pending, t) == (if t == stream then [] else OfStream(before.pending, t)))
      {
        HandingOverSeen(before, stream, handler, other, t);
      }
      if stream !in listeners {
        listeners := listeners[stream := [handler]];
        streamOrder := streamOrder + [stream];
      } else if handler !in listeners[stream] {
        listeners := listeners[stream := listeners[stream] + [handler]];
      }
      HandOver(stream, handler);
    }

    method HandOver(stream: u32, handler: nat)
      modifies this`pending, this`delivered
      ensures Subscribers() == HandedOver(old(Subscribers()), stream, handler)
    {
      var index := |pending| - 1;
      ghost var before := pending;
      ghost var given := delivered;
      assert before[..|before|] == before && before[|before|..] == [];
      while index >= 0
        invariant -1 <= index < |before|
        invariant pending == Partly(before, index + 1, stream)
        invariant delivered == given + PartlyGiven(before, index + 1, stream, handler)
      {
        PartlyStep(before, index, stream, handler);
        var buffered := pending[index];
        if buffered.stream == stream {
          pending := pending[..index] + pending[index + 1..];
          delivered := delivered + [Delivery(handler, buffered.msg)];
        }
        index := index - 1;
      }
      assert before[0..] == before;
    }

    // Unsubscribing removes only this handler, and the stream with its last one.
    method Off(stream: u32, handler: nat)
      modifies this`listeners, this`streamOrder
      ensures Subscribers() == Unsubscribed(old(Subscribers()), stream, handler)
    {
      if stream !in listeners {
        return;
      }
      var rest := Without(listeners[stream], handler);
      if rest == [] {
        listeners := listeners - {stream};
        streamOrder := Without(streamOrder, stream);
      } else {
        listeners := listeners[stream := rest];
      }
    }
  }
}
