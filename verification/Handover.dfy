// The salt exchange end to end: the browser client of module Tunnel, the daemon's side of the same
// handshake, and a relay that keeps order. Nothing that is sent is lost, whenever frames arrive
// relative to the client's key derivation.
module Handover {
  import opened Results
  import opened BigEndian
  import opened SealedChannel
  import opened Streams
  import opened Tunnel

  const SALT_LEN: nat := 32
  const MAX_SAFE: nat := 0x20_0000_0000_0000

  // The client's checks are those of the session: whatever holds for one holds for the other.
  lemma SameChecks(c: ClientState, key: Key, stream: u32, wire: Wire, msg: Bytes)
    requires c.openKey == Some(key) && c.openCounter < U64_MAX
    ensures OpenFrame(c, Carrier(stream, wire)) == Ok(Item(stream, msg))
       <==> OpenOutcome(key, c.openCounter, stream, wire) == Ok(msg)
  {}

  // ---------------------------------------------------------------- the daemon

  datatype Phase = Waiting | Established(salt: Bytes, sealed: u64, count: u64) | Broken

  datatype DaemonState = DaemonState(root: Bytes, phase: Phase, received: seq<Item>, written: seq<Carrier>)

  // The daemon's half of the handshake: the salt opens under the provisional key, the count of what was
  // opened is carried over, and the acknowledgement is the first frame of the new session.
  function Establishing(d: DaemonState, frame: Carrier): DaemonState
  {
    match frame
    case NotData => d.(phase := Broken)
    case Carrier(stream, wire) =>
      match OpenOutcome(Key(d.root, NO_SALT, Client), 0, stream, wire)
      case Err(_) => d.(phase := Broken)
      case Ok(salt) =>
        if stream != CONTROL_STREAM || |salt| != SALT_LEN then d.(phase := Broken)
        else d.(phase := Established(salt, 1, 1), received := d.received + [Item(stream, salt)],
                written := d.written + [Carrier(CONTROL_STREAM, Frame(Key(d.root, salt, Daemon), 0, CONTROL_STREAM, SESSION_ACK))])
  }

  function Receiving(d: DaemonState, frame: Carrier): DaemonState
  {
    match d.phase
    case Broken => d
    case Waiting => Establishing(d, frame)
    case Established(salt, sealed, count) =>
      match frame
      case NotData => d.(phase := Broken)
      case Carrier(stream, wire) =>
        match OpenOutcome(Key(d.root, salt, Client), count, stream, wire)
        case Err(_) => d.(phase := Broken)
        case Ok(msg) => d.(phase := Established(salt, sealed, count + 1), received := d.received + [Item(stream, msg)])
  }

  function Replying(d: DaemonState, stream: u32, msg: Bytes): DaemonState
    requires d.phase.Established?
  {
    var Established(salt, sealed, count) := d.phase;
    match SealOutcome(Key(d.root, salt, Daemon), sealed, stream, msg)
    case Err(_) => d
    case Ok(wire) => d.(phase := Established(salt, sealed + 1, count), written := d.written + [Carrier(stream, wire)])
  }

  // ---------------------------------------------------------------- the system

  datatype Stage = Idle | SaltSealing | SaltWritten | SealKeyReady | Ready

  // The client with its running handshake and encryptions, the daemon, how far the relay has read
  // each side, and what was sent, replied and opened so far.
  datatype System = System(
    salt: Bytes, client: ClientState, stage: Stage, encrypting: seq<Carrier>, daemon: DaemonState,
    upTaken: nat, downTaken: nat, sent: seq<Item>, replied: seq<Item>, taken: seq<Item>)

  datatype Event =
    | HandshakeGoesOn
    | EncryptionDone(index: nat)
    | RelayUp
    | RelayDown
    | InjectUp(frame: Carrier)
    | InjectDown(frame: Carrier)
    | ClientOpens
    | ClientSends(stream: u32, msg: Bytes)
    | DaemonSends(stream: u32, msg: Bytes)

  function Start(root: Bytes, deviceStep: bool, salt: Bytes): System
  {
    System(salt, Fresh(root, deviceStep), Idle, [], DaemonState(root, Waiting, [], []), 0, 0, [], [], [])
  }

  predicate Enabled(s: System, e: Event)
  {
    match e
    case HandshakeGoesOn => s.stage == Idle || s.stage == SaltWritten || s.stage == SealKeyReady
    case EncryptionDone(i) => i < |s.encrypting|
    case RelayUp => s.upTaken < |s.client.socket|
    case RelayDown => s.downTaken < |s.daemon.written|
    case InjectUp(_) => true
    case InjectDown(_) => true
    case ClientOpens => s.client.chain != []
    case ClientSends(_, _) => s.stage == Ready && s.client.sealCounter < MAX_SAFE
    case DaemonSends(_, _) => s.daemon.phase.Established? && s.daemon.phase.sealed < MAX_SAFE
  }

  // The daemon reads a frame, whoever made it.
  function Heard(s: System, frame: Carrier): System
  {
    var d := Receiving(s.daemon, frame);
    s.(daemon := d,
       replied := if s.daemon.phase.Waiting? && d.phase.Established? then [Item(CONTROL_STREAM, SESSION_ACK)] else s.replied)
  }

  function Apply(s: System, e: Event): System
    requires Enabled(s, e)
  {
    var c := s.client;
    match e
    case HandshakeGoesOn =>
      (match s.stage
       case Idle =>
         var (begun, frame) := Beginning(c, s.salt);
         s.(client := begun, stage := SaltSealing, encrypting := [frame], sent := [Item(CONTROL_STREAM, s.salt)])
       case SaltWritten => s.(client := c.(sealKey := Some(Key(c.root, s.salt, Client))), stage := SealKeyReady)
       case _ => s.(client := Deriving(c, s.salt, c.sealCounter), stage := Ready))
    case EncryptionDone(i) =>
      s.(client := c.(socket := c.socket + [s.encrypting[i]]),
         encrypting := s.encrypting[..i] + s.encrypting[i + 1..],
         stage := if s.stage == SaltSealing then SaltWritten else s.stage)
    case RelayUp => Heard(s, c.socket[s.upTaken]).(upTaken := s.upTaken + 1)
    case RelayDown => s.(client := Absorbing(c, s.daemon.written[s.downTaken]), downTaken := s.downTaken + 1)
    case InjectUp(frame) => Heard(s, frame)
    case InjectDown(frame) => s.(client := Absorbing(c, frame))
    case ClientOpens =>
      var r := OpenFrame(c, c.chain[0]);
      s.(client := Opening(c), taken := if r.Ok? then s.taken + [r.value] else s.taken)
    case ClientSends(stream, msg) =>
      var (begun, frame) := Sending(c, stream, msg);
      if frame.Err? then s
      else s.(client := begun, encrypting := s.encrypting + [frame.value], sent := s.sent + [Item(stream, msg)])
    case DaemonSends(stream, msg) =>
      s.(daemon := Replying(s.daemon, stream, msg), replied := s.replied + [Item(stream, msg)])
  }

  function Run(s: System, events: seq<Event>): System
    requires CanRun(s, events)
    decreases |events|
  {
    if events == [] then s else Run(Apply(s, events[0]), events[1..])
  }

  predicate CanRun(s: System, events: seq<Event>)
    decreases |events|
  {
    events == [] || (Enabled(s, events[0]) && CanRun(Apply(s, events[0]), events[1..]))
  }

  // The hypotheses of delivery: encryptions finish in the order they were started, and the relay
  // forwards what it reads.
  predicate InOrder(e: Event)
  {
    !e.InjectUp? && !e.InjectDown? && (e.EncryptionDone? ==> e.index == 0)
  }

  predicate AllInOrder(events: seq<Event>)
  {
    events == [] || (InOrder(events[0]) && AllInOrder(events[1..]))
  }

  predicate Possible(s: System, events: seq<Event>)
  {
    CanRun(s, events) && AllInOrder(events)
  }

  // ---------------------------------------------------------------- invariant

  // What the i-th frame of each direction is: the salt under the provisional key, everything else
  // under the keys that the salt defines.
  function UpFrame(s: System, i: nat): Carrier
    requires i < |s.sent|
  {
    Sealing(Key(s.client.root, if i == 0 then NO_SALT else s.salt, Client), i, s.sent[i].stream, s.sent[i].msg)
  }

  function DownFrame(s: System, i: nat): Carrier
    requires i < |s.replied|
  {
    Sealing(Key(s.client.root, s.salt, Daemon), i, s.replied[i].stream, s.replied[i].msg)
  }

  function AllUp(s: System): seq<Carrier>
  {
    s.client.socket + s.encrypting
  }

  ghost predicate ClientSide(s: System)
  {
    var c := s.client;
    && |s.salt| == SALT_LEN && c.failure == None
    && |s.sent| == c.sealCounter == |AllUp(s)| <= MAX_SAFE
    && (forall i :: 0 <= i < |s.sent| ==> AllUp(s)[i] == UpFrame(s, i))
    && (s.sent != [] ==> s.sent[0] == Item(CONTROL_STREAM, s.salt))
    && (match s.stage
        case Idle => s.sent == []
        case SaltSealing => |s.sent| == |s.encrypting| == 1 && c.socket == []
        case SaltWritten => |s.sent| == |c.socket| == 1 && s.encrypting == []
        case SealKeyReady => |s.sent| == |c.socket| == 1 && s.encrypting == [] && c.sealKey == Some(Key(c.root, s.salt, Client))
        case Ready => |s.sent| >= 1 && c.socket != [] && c.sealKey == Some(Key(c.root, s.salt, Client))
                      && c.openKey == Some(Key(c.root, s.salt, Daemon)))
  }

  ghost predicate DaemonSide(s: System)
  {
    var d := s.daemon;
    && d.root == s.client.root && s.upTaken <= |s.client.socket| && s.upTaken <= |s.sent|
    && |d.written| == |s.replied| <= MAX_SAFE
    && (forall i :: 0 <= i < |s.replied| ==> d.written[i] == DownFrame(s, i))
    && (match d.phase
        case Broken => false
        case Waiting => s.upTaken == 0 && s.replied == [] && d.received == []
        case Established(salt, sealed, count) =>
          && s.upTaken >= 1 && salt == s.salt && sealed == |s.replied| && count == s.upTaken
          && s.replied != [] && s.replied[0] == Item(CONTROL_STREAM, SESSION_ACK)
          && d.received == s.sent[..s.upTaken])
  }

  ghost predicate Inbound(s: System)
  {
    var c := s.client;
    && c.ready == (s.stage == Ready)
    && (if c.ready then c.deferred == [] else c.chain == [] && c.openCounter == 0)
    && c.openCounter == |s.taken| <= s.downTaken <= |s.daemon.written| == |s.replied|
    && s.taken == s.replied[..c.openCounter]
    && c.chain + c.deferred == s.daemon.written[c.openCounter..s.downTaken]
    && c.acknowledged == (c.openCounter > 0)
  }

  ghost predicate Lossless(s: System)
  {
    ClientSide(s) && DaemonSide(s) && Inbound(s)
  }

  lemma SealedOpens(key: Key, counter: nat, stream: u32, msg: Bytes)
    requires counter < U64_MAX
    ensures OpenOutcome(key, counter, stream, Frame(key, counter, stream, msg)) == Ok(msg)
  {
    OpensExactlySealed(key, counter, stream, Frame(key, counter, stream, msg), msg);
  }

  lemma HandshakeStep(s: System)
    requires Lossless(s) && Enabled(s, HandshakeGoesOn)
    ensures Lossless(Apply(s, HandshakeGoesOn))
  {
    var s' := Apply(s, HandshakeGoesOn);
    assert forall i :: 0 <= i < |s'.replied| ==> DownFrame(s', i) == DownFrame(s, i);
    if s.stage != Idle {
      assert forall i :: 0 <= i < |s'.sent| ==> UpFrame(s', i) == UpFrame(s, i);
    }
  }

  lemma EncryptionStep(s: System)
    requires Lossless(s) && Enabled(s, EncryptionDone(0))
    ensures Lossless(Apply(s, EncryptionDone(0)))
  {
    var s' := Apply(s, EncryptionDone(0));
    assert AllUp(s') == AllUp(s);
    assert forall i :: 0 <= i < |s'.sent| ==> UpFrame(s', i) == UpFrame(s, i);
    assert forall i :: 0 <= i < |s'.replied| ==> DownFrame(s', i) == DownFrame(s, i);
  }

  // The next frame the daemon reads opens: the salt first, then one item after the other.
  lemma NextFrameOpens(s: System)
    requires Lossless(s) && s.upTaken < |s.client.socket|
    ensures (var d, n := Receiving(s.daemon, s.client.socket[s.upTaken]), s.upTaken;
             && n < |s.sent| && d.root == s.daemon.root && d.received == s.daemon.received + [s.sent[n]]
             && (if n == 0 then
                   d.phase == Established(s.salt, 1, 1)
                   && d.written == [Sealing(Key(d.root, s.salt, Daemon), 0, CONTROL_STREAM, SESSION_ACK)]
                 else d.phase == Established(s.salt, s.daemon.phase.sealed, n + 1) && d.written == s.daemon.written))
  {
    var n := s.upTaken;
    assert AllUp(s)[n] == s.client.socket[n] == UpFrame(s, n);
    SealedOpens(UpFrame(s, n).wire.body.key, n, s.sent[n].stream, s.sent[n].msg);
  }

  lemma RelayUpStep(s: System)
    requires Lossless(s) && Enabled(s, RelayUp)
    ensures Lossless(Apply(s, RelayUp))
  {
    var s', n := Apply(s, RelayUp), s.upTaken;
    NextFrameOpens(s);
    assert s.sent[..n + 1] == s.sent[..n] + [s.sent[n]];
    RelayUpClient(s);
    if n > 0 {
      assert forall i :: 0 <= i < |s.replied| ==> DownFrame(s', i) == DownFrame(s, i);
    }
  }

  lemma RelayUpClient(s: System)
    requires Lossless(s) && Enabled(s, RelayUp)
    ensures ClientSide(Apply(s, RelayUp))
  {
    var s' := Apply(s, RelayUp);
    assert AllUp(s') == AllUp(s);
    assert forall i :: 0 <= i < |s.sent| ==> UpFrame(s', i) == UpFrame(s, i);
  }

  lemma Absorbed(c: ClientState, frame: Carrier)
    requires c.ready ==> c.deferred == []
    ensures (var d := Absorbing(c, frame); d.chain + d.deferred == (c.chain + c.deferred) + [frame])
  {
    if c.ready {
      assert c.chain + c.deferred == c.chain && (c.chain + [frame]) + c.deferred == c.chain + [frame];
    }
  }

  lemma SliceGrows<T>(s: seq<T>, i: nat, j: nat)
    requires i <= j < |s|
    ensures s[i..j + 1] == s[i..j] + [s[j]]
  {}

  lemma RelayDownStep(s: System)
    requires Lossless(s) && Enabled(s, RelayDown)
    ensures Lossless(Apply(s, RelayDown))
  {
    var s' := Apply(s, RelayDown);
    SliceGrows(s.daemon.written, s.client.openCounter, s.downTaken);
    Absorbed(s.client, s.daemon.written[s.downTaken]);
    SidesStay(s, s');
  }

  // What one end opens or queues leaves what either end has sealed as it was.
  lemma SidesStay(s: System, s': System)
    requires Lossless(s) && s'.salt == s.salt && s'.stage == s.stage && s'.encrypting == s.encrypting
    requires s'.daemon == s.daemon && s'.upTaken == s.upTaken && s'.sent == s.sent && s'.replied == s.replied
    requires SameSealing(s.client, s'.client)
    ensures ClientSide(s') && DaemonSide(s')
  {
    SameFrames(s, s');
  }

  predicate SameSealing(c: ClientState, d: ClientState)
  {
    && d.root == c.root && d.sealKey == c.sealKey && d.openKey == c.openKey && d.sealCounter == c.sealCounter
    && d.failure == c.failure && d.socket == c.socket
  }

  // The head of the chain is the next reply, and it opens.
  lemma HeadOpens(s: System)
    requires Lossless(s) && s.client.chain != []
    ensures s.client.openCounter < |s.replied| && s.client.chain[0] == s.daemon.written[s.client.openCounter]
    ensures OpenFrame(s.client, s.client.chain[0]) == Ok(s.replied[s.client.openCounter])
  {
    var c, n := s.client, s.client.openCounter;
    assert c.chain[0] == (c.chain + c.deferred)[0] == s.daemon.written[n] == DownFrame(s, n);
    SealedOpens(Key(c.root, s.salt, Daemon), n, s.replied[n].stream, s.replied[n].msg);
    SameChecks(c, Key(c.root, s.salt, Daemon), s.replied[n].stream, DownFrame(s, n).wire, s.replied[n].msg);
  }

  // What accepting an item leaves alone.
  predicate SameCore(c: ClientState, d: ClientState)
  {
    && d.root == c.root && d.sealKey == c.sealKey && d.openKey == c.openKey && d.sealCounter == c.sealCounter
    && d.ready == c.ready && d.deferred == c.deferred && d.chain == c.chain
    && d.failure == c.failure && d.socket == c.socket
  }

  lemma AcceptedFields(c: ClientState, item: Item)
    ensures (var d := Accepted(c, item);
             && SameCore(c, d) && d.openCounter == c.openCounter + 1
             && d.acknowledged == (c.acknowledged || (item.stream == CONTROL_STREAM && IsAck(item.msg))))
  {
    AcknowledgedFields(c.(openCounter := c.openCounter + 1));
    AcceptedIsOneOf(c, item);
  }

  lemma AcceptedIsOneOf(c: ClientState, item: Item)
    ensures (var a, d := Accepted(c, item), c.(openCounter := c.openCounter + 1);
             if !c.acknowledged && item.stream == CONTROL_STREAM && IsAck(item.msg) then a == Acknowledged(d)
             else a == d.(toDevice := a.toDevice) || a == d.(streams := Dispatched(c.streams, item)))
  {}

  lemma AcknowledgedFields(c: ClientState)
    ensures SameCore(c, Acknowledged(c)) && Acknowledged(c).openCounter == c.openCounter && Acknowledged(c).acknowledged
  {}

  lemma ClientOpensStep(s: System)
    requires Lossless(s) && Enabled(s, ClientOpens)
    ensures Lossless(Apply(s, ClientOpens))
  {
    var s' := Apply(s, ClientOpens);
    var c, w, n := s.client, s.daemon.written, s.client.openCounter;
    HeadOpens(s);
    AcceptedFields(c.(chain := c.chain[1..]), s.replied[n]);
    assert s.replied[..n + 1] == s.replied[..n] + [s.replied[n]];
    assert c.chain + c.deferred == c.chain;
    assert s'.client.chain + s'.client.deferred == w[n..s.downTaken][1..] == w[n + 1..s.downTaken];
    SidesStay(s, s');
  }

  lemma SameFrames(s: System, s': System)
    requires Lossless(s) && s'.sent == s.sent && s'.replied == s.replied && s'.salt == s.salt
    requires s'.client.root == s.client.root && s'.client.socket == s.client.socket && s'.encrypting == s.encrypting
    ensures AllUp(s') == AllUp(s)
    ensures forall i :: 0 <= i < |s.sent| ==> UpFrame(s', i) == UpFrame(s, i)
    ensures forall i :: 0 <= i < |s.replied| ==> DownFrame(s', i) == DownFrame(s, i)
  {}

  lemma ClientSendsStep(s: System, stream: u32, msg: Bytes)
    requires Lossless(s) && Enabled(s, ClientSends(stream, msg))
    ensures Lossless(Apply(s, ClientSends(stream, msg)))
  {
    var s' := Apply(s, ClientSends(stream, msg));
    ClientSendsSeals(s, stream, msg);
    assert forall i :: 0 <= i < |s.replied| ==> DownFrame(s', i) == DownFrame(s, i);
    SliceOfLonger(s.sent, Item(stream, msg), 0, s.upTaken);
  }

  lemma ClientSendsSeals(s: System, stream: u32, msg: Bytes)
    requires Lossless(s) && Enabled(s, ClientSends(stream, msg))
    ensures ClientSide(Apply(s, ClientSends(stream, msg)))
  {
    var s' := Apply(s, ClientSends(stream, msg));
    assert AllUp(s') == AllUp(s) + [UpFrame(s', |s.sent|)];
    assert forall i :: 0 <= i < |s.sent| ==> UpFrame(s', i) == UpFrame(s, i);
  }

  lemma DaemonSendsStep(s: System, stream: u32, msg: Bytes)
    requires Lossless(s) && Enabled(s, DaemonSends(stream, msg))
    ensures Lossless(Apply(s, DaemonSends(stream, msg)))
  {
    var s' := Apply(s, DaemonSends(stream, msg));
    var d, n := s.daemon, |s.replied|;
    Replied(d, stream, msg);
    assert AllUp(s') == AllUp(s);
    assert forall i :: 0 <= i < |s.sent| ==> UpFrame(s', i) == UpFrame(s, i);
    assert forall i :: 0 <= i < n ==> DownFrame(s', i) == DownFrame(s, i);
    assert DownFrame(s', n) == Carrier(stream, Frame(Key(d.root, d.phase.salt, Daemon), n, stream, msg));
    SliceOfLonger(s.replied, Item(stream, msg), 0, s.client.openCounter);
    SliceOfLonger(d.written, DownFrame(s', n), s.client.openCounter, s.downTaken);
  }

  lemma Replied(d: DaemonState, stream: u32, msg: Bytes)
    requires d.phase.Established? && d.phase.sealed < U64_MAX
    ensures (var e := Replying(d, stream, msg);
             && e.root == d.root && e.received == d.received
             && e.phase == Established(d.phase.salt, d.phase.sealed + 1, d.phase.count)
             && e.written == d.written + [Carrier(stream, Frame(Key(d.root, d.phase.salt, Daemon), d.phase.sealed, stream, msg))])
  {}

  lemma SliceOfLonger<T>(s: seq<T>, x: T, i: nat, j: nat)
    requires i <= j <= |s|
    ensures (s + [x])[i..j] == s[i..j]
  {}

  lemma StepIsLossless(s: System, e: Event)
    requires Lossless(s) && Enabled(s, e) && InOrder(e)
    ensures Lossless(Apply(s, e))
  {
    match e
    case HandshakeGoesOn => HandshakeStep(s);
    case EncryptionDone(_) => EncryptionStep(s);
    case RelayUp => RelayUpStep(s);
    case RelayDown => RelayDownStep(s);
    case ClientOpens => ClientOpensStep(s);
    case ClientSends(stream, msg) => ClientSendsStep(s, stream, msg);
    case DaemonSends(stream, msg) => DaemonSendsStep(s, stream, msg);
  }

  lemma {:induction false} RunIsLossless(s: System, events: seq<Event>)
    requires Lossless(s) && Possible(s, events)
    ensures Lossless(Run(s, events))
    decreases |events|
  {
    if events != [] {
      StepIsLossless(s, events[0]);
      RunIsLossless(Apply(s, events[0]), events[1..]);
    }
  }

  // Every interleaving of frame arrival, key derivation, sends and replies: nothing fails, and each
  // side has opened, in order, the first so many items the other side sealed.
  lemma NothingIsLost(root: Bytes, deviceStep: bool, salt: Bytes, events: seq<Event>)
    requires |salt| == SALT_LEN && Possible(Start(root, deviceStep, salt), events)
    ensures (var s := Run(Start(root, deviceStep, salt), events);
             && s.client.failure == None && !s.daemon.phase.Broken?
             && s.taken <= s.replied && s.daemon.received <= s.sent)
  {
    RunIsLossless(Start(root, deviceStep, salt), events);
  }

  // Nothing is under way.
  predicate Quiet(s: System)
  {
    && s.stage == Ready && s.encrypting == [] && s.client.chain == []
    && s.upTaken == |s.client.socket| && s.downTaken == |s.daemon.written|
  }

  // Once nothing is under way, each sender's next counter is the one its peer expects.
  lemma CountersMeet(root: Bytes, deviceStep: bool, salt: Bytes, events: seq<Event>)
    requires |salt| == SALT_LEN && Possible(Start(root, deviceStep, salt), events)
    requires Quiet(Run(Start(root, deviceStep, salt), events))
    ensures (var s := Run(Start(root, deviceStep, salt), events);
             && s.daemon.phase.Established? && s.daemon.phase.salt == salt
             && s.daemon.phase.sealed == s.client.openCounter && s.daemon.phase.count == s.client.sealCounter
             && s.taken == s.replied && s.daemon.received == s.sent && s.client.acknowledged)
  {
    RunIsLossless(Start(root, deviceStep, salt), events);
    RunKeepsSalt(Start(root, deviceStep, salt), events);
  }

  lemma {:induction false} RunKeepsSalt(s: System, events: seq<Event>)
    requires CanRun(s, events)
    ensures Run(s, events).salt == s.salt
    decreases |events|
  {
    if events != [] {
      RunKeepsSalt(Apply(s, events[0]), events[1..]);
    }
  }

  // How much is still under way.
  function Pending(s: System): int
  {
    (match s.stage case Idle => 400 case SaltSealing => 300 case SaltWritten => 200 case SealKeyReady => 100 case Ready => 0)
    + 5 * |s.encrypting| + 4 * (|s.client.socket| - s.upTaken)
    + 2 * (|s.daemon.written| - s.downTaken) + |s.client.chain| + |s.client.deferred|
  }

  // The replies once the handshake is through, if nothing more is asked of the daemon.
  function Due(s: System): seq<Item>
  {
    if s.daemon.phase.Waiting? then [Item(CONTROL_STREAM, SESSION_ACK)] else s.replied
  }

  // As long as anything is under way, something can happen that brings the end nearer.
  function NextEvent(s: System): Event
  {
    if s.encrypting != [] then EncryptionDone(0)
    else if s.stage != Ready then HandshakeGoesOn
    else if s.client.chain != [] then ClientOpens
    else if s.upTaken < |s.client.socket| then RelayUp
    else RelayDown
  }

  lemma Progress(s: System)
    requires Lossless(s) && !Quiet(s)
    ensures (var e := NextEvent(s);
             && Enabled(s, e) && InOrder(e) && !e.ClientSends? && !e.DaemonSends?
             && Pending(Apply(s, e)) < Pending(s) && s.sent <= Apply(s, e).sent)
  {
    match NextEvent(s)
    case EncryptionDone(_) =>
    case HandshakeGoesOn => HandshakeProgress(s);
    case ClientOpens => OpeningProgress(s);
    case RelayUp => RelayProgress(s);
    case RelayDown => DownProgress(s);
  }

  lemma DueStays(s: System, e: Event)
    requires Lossless(s) && Enabled(s, e) && InOrder(e) && !e.DaemonSends?
    ensures Due(Apply(s, e)) == Due(s)
  {
    match e
    case RelayUp => NextFrameOpens(s);
    case ClientSends(stream, msg) =>
    case _ =>
  }

  lemma OpeningProgress(s: System)
    requires Lossless(s) && s.client.chain != []
    ensures Pending(Apply(s, ClientOpens)) < Pending(s)
  {
    HeadOpens(s);
    AcceptedFields(s.client.(chain := s.client.chain[1..]), s.replied[s.client.openCounter]);
  }

  lemma DownProgress(s: System)
    requires Lossless(s) && s.downTaken < |s.daemon.written|
    ensures Pending(Apply(s, RelayDown)) < Pending(s)
  {}

  lemma HandshakeProgress(s: System)
    requires Lossless(s) && s.stage != Ready && s.encrypting == []
    ensures Enabled(s, HandshakeGoesOn) && Pending(Apply(s, HandshakeGoesOn)) < Pending(s)
  {}

  lemma RelayProgress(s: System)
    requires Lossless(s) && s.upTaken < |s.client.socket|
    ensures Pending(Apply(s, RelayUp)) < Pending(s)
  {
    assert |Receiving(s.daemon, s.client.socket[s.upTaken]).written| <= |s.daemon.written| + 1;
  }

  lemma PendingNatural(s: System)
    requires Lossless(s)
    ensures Pending(s) >= 0
  {}

  // So a relay that keeps order gets everything delivered, from wherever the run stands.
  lemma {:induction false} EverythingIsDelivered(s: System) returns (events: seq<Event>)
    requires Lossless(s)
    ensures Possible(s, events) && Quiet(Run(s, events)) && s.sent <= Run(s, events).sent
    ensures Lossless(Run(s, events)) && Run(s, events).replied == Due(s)
    decreases Pending(s)
  {
    PendingNatural(s);
    if Quiet(s) {
      QuietIsOpen(s);
      events := [];
    } else {
      var e := NextEvent(s);
      Progress(s);
      DueStays(s, e);
      StepIsLossless(s, e);
      PendingNatural(Apply(s, e));
      var rest := EverythingIsDelivered(Apply(s, e));
      events := [e] + rest;
      OneMoreEvent(s, e, rest);
    }
  }

  // Nothing is under way only after the handshake, with everything opened.
  lemma QuietIsOpen(s: System)
    requires Lossless(s) && Quiet(s)
    ensures s.daemon.phase.Established? && s.client.openKey == Some(Key(s.client.root, s.salt, Daemon))
    ensures s.client.ready && s.taken == s.replied && s.client.openCounter == |s.replied|
  {}

  lemma OneMoreEvent(s: System, e: Event, rest: seq<Event>)
    requires Enabled(s, e) && InOrder(e) && Possible(Apply(s, e), rest)
    ensures Possible(s, [e] + rest) && Run(s, [e] + rest) == Run(Apply(s, e), rest)
  {
    assert ([e] + rest)[1..] == rest;
  }

  // ------------------------------------------------------------------ nonces

  // The key and nonce a frame was sealed with.
  function Pair(frame: Carrier): Option<(Key, Bytes)>
  {
    if frame.Carrier? && frame.wire.Wire? && frame.wire.body.Sealed? then Some((frame.wire.body.key, frame.wire.body.nonce))
    else None
  }

  // A frame the role sealed at this counter, under whichever key.
  predicate Stamped(frame: Carrier, role: Role, counter: nat)
  {
    Pair(frame).Some? && Pair(frame).value.0.sealer == role && Pair(frame).value.1 == NonceBytes(counter)
  }

  // The counters the frames of the client carry: each of those below its own counter, once.
  ghost predicate ClientNumbered(frames: seq<Carrier>, next: nat, counters: seq<nat>)
  {
    && |counters| == |frames| == next <= MAX_SAFE && NoRepeats(counters)
    && (forall i :: 0 <= i < next ==> counters[i] < next && Stamped(frames[i], Client, counters[i]))
  }

  // The daemon's i-th frame carries i.
  ghost predicate DaemonNumbered(d: DaemonState)
  {
    && |d.written| <= MAX_SAFE
    && (d.phase.Waiting? ==> d.written == [])
    && (d.phase.Established? ==> |d.written| == d.phase.sealed)
    && (forall i :: 0 <= i < |d.written| ==> Stamped(d.written[i], Daemon, i))
  }

  ghost predicate Numbered(s: System, counters: seq<nat>)
  {
    && ClientNumbered(AllUp(s), s.client.sealCounter, counters) && DaemonNumbered(s.daemon)
    && (s.stage == Idle ==> s.client.sealCounter == 0)
    && (s.client.sealKey.Some? ==> s.client.sealKey.value.sealer == Client)
  }

  // The counters after an event: an encryption that finishes early moves its counter forward.
  function CountersAfter(s: System, counters: seq<nat>, e: Event): seq<nat>
    requires Enabled(s, e) && |counters| == |AllUp(s)|
  {
    match e
    case HandshakeGoesOn => if s.stage == Idle then [s.client.sealCounter] else counters
    case EncryptionDone(i) => Advanced(counters, |s.client.socket|, i)
    case ClientSends(_, _) => if s.client.sealKey.Some? then counters + [s.client.sealCounter] else counters
    case _ => counters
  }

  // The i-th of the elements from n on, moved to their front.
  function Advanced<T>(s: seq<T>, n: nat, i: nat): seq<T>
    requires n + i < |s|
  {
    s[..n] + [s[n + i]] + (s[n..n + i] + s[n + i + 1..])
  }

  // Where the elements come from.
  function Origin(n: nat, i: nat, k: nat): nat
  {
    if k < n || k > n + i then k else if k == n then n + i else k - 1
  }

  lemma AdvancedAt<T>(s: seq<T>, n: nat, i: nat, k: nat)
    requires n + i < |s| && k < |s|
    ensures |Advanced(s, n, i)| == |s| && Origin(n, i, k) < |s| && Advanced(s, n, i)[k] == s[Origin(n, i, k)]
  {}

  lemma EncryptionIsAdvance(s: System, i: nat)
    requires i < |s.encrypting|
    ensures AllUp(Apply(s, EncryptionDone(i))) == Advanced(AllUp(s), |s.client.socket|, i)
  {
    var n := |s.client.socket|;
    assert AllUp(s)[n + i] == s.encrypting[i];
    assert AllUp(s)[n..n + i] == s.encrypting[..i] && AllUp(s)[n + i + 1..] == s.encrypting[i + 1..];
  }

  lemma EncryptionNumbers(s: System, counters: seq<nat>, i: nat)
    requires Numbered(s, counters) && i < |s.encrypting|
    ensures Numbered(Apply(s, EncryptionDone(i)), CountersAfter(s, counters, EncryptionDone(i)))
  {
    var s', n := Apply(s, EncryptionDone(i)), |s.client.socket|;
    var moved := Advanced(counters, n, i);
    EncryptionIsAdvance(s, i);
    forall k | 0 <= k < |moved| ensures moved[k] < s.client.sealCounter && Stamped(AllUp(s')[k], Client, moved[k]) {
      AdvancedAt(counters, n, i, k);
      AdvancedAt(AllUp(s), n, i, k);
    }
    forall j, k | 0 <= j < k < |moved| ensures moved[j] != moved[k] {
      AdvancedAt(counters, n, i, j);
      AdvancedAt(counters, n, i, k);
      DifferentPlaces(counters, Origin(n, i, j), Origin(n, i, k));
    }
  }

  lemma DifferentPlaces(s: seq<nat>, i: nat, j: nat)
    requires NoRepeats(s) && i < |s| && j < |s| && i != j
    ensures s[i] != s[j]
  {
    assert if i < j then s[i] != s[j] else s[j] != s[i];
  }

  lemma OneMoreNumber(frames: seq<Carrier>, next: nat, counters: seq<nat>, frame: Carrier)
    requires ClientNumbered(frames, next, counters) && next < MAX_SAFE && Stamped(frame, Client, next)
    ensures ClientNumbered(frames + [frame], next + 1, counters + [next])
  {
    NoRepeatsSnoc(counters, next);
  }

  lemma SendNumbers(s: System, counters: seq<nat>, stream: u32, msg: Bytes)
    requires Numbered(s, counters) && Enabled(s, ClientSends(stream, msg))
    ensures Numbered(Apply(s, ClientSends(stream, msg)), CountersAfter(s, counters, ClientSends(stream, msg)))
  {
    if s.client.sealKey.Some? {
      var s', n := Apply(s, ClientSends(stream, msg)), s.client.sealCounter;
      var frame := Sealing(s.client.sealKey.value, n, stream, msg);
      assert AllUp(s') == AllUp(s) + [frame];
      OneMoreNumber(AllUp(s), n, counters, frame);
    }
  }

  lemma BeginningNumbers(s: System, counters: seq<nat>)
    requires Numbered(s, counters) && s.stage == Idle
    ensures Numbered(Apply(s, HandshakeGoesOn), CountersAfter(s, counters, HandshakeGoesOn))
  {
    var s', frame := Apply(s, HandshakeGoesOn), Beginning(s.client, s.salt).1;
    OneMoreNumber([], 0, [], frame);
    assert [] + [frame] == AllUp(s') && [] + [0] == CountersAfter(s, counters, HandshakeGoesOn);
  }

  lemma KeysNumber(s: System, counters: seq<nat>)
    requires Numbered(s, counters) && Enabled(s, HandshakeGoesOn) && s.stage != Idle
    ensures Numbered(Apply(s, HandshakeGoesOn), counters)
  {
    assert AllUp(Apply(s, HandshakeGoesOn)) == AllUp(s);
  }

  // Whatever frame the daemon reads.
  lemma ReceivingNumbers(d: DaemonState, frame: Carrier)
    requires DaemonNumbered(d)
    ensures DaemonNumbered(Receiving(d, frame))
  {}

  lemma HeardNumbers(s: System, counters: seq<nat>, frame: Carrier)
    requires Numbered(s, counters)
    ensures Numbered(Heard(s, frame), counters)
  {
    ReceivingNumbers(s.daemon, frame);
    assert AllUp(Heard(s, frame)) == AllUp(s);
  }

  lemma ReplyNumbers(d: DaemonState, stream: u32, msg: Bytes)
    requires DaemonNumbered(d) && d.phase.Established? && d.phase.sealed < MAX_SAFE
    ensures DaemonNumbered(Replying(d, stream, msg))
  {
    Replied(d, stream, msg);
  }

  // Whatever the client opens, or fails to.
  lemma OpeningKeeps(c: ClientState)
    requires c.chain != []
    ensures (var d := Opening(c); d.sealCounter == c.sealCounter && d.sealKey == c.sealKey && d.socket == c.socket)
  {
    var d := c.(chain := c.chain[1..]);
    var r := OpenFrame(d, c.chain[0]);
    if r.Ok? {
      AcceptedFields(d, r.value);
    }
  }

  lemma OpeningNumbers(s: System, counters: seq<nat>)
    requires Numbered(s, counters) && s.client.chain != []
    ensures Numbered(Apply(s, ClientOpens), counters)
  {
    OpeningKeeps(s.client);
    assert AllUp(Apply(s, ClientOpens)) == AllUp(s);
  }

  lemma StepNumbers(s: System, counters: seq<nat>, e: Event)
    requires Numbered(s, counters) && Enabled(s, e)
    ensures Numbered(Apply(s, e), CountersAfter(s, counters, e))
  {
    match e
    case HandshakeGoesOn => if s.stage == Idle { BeginningNumbers(s, counters); } else { KeysNumber(s, counters); }
    case EncryptionDone(i) => EncryptionNumbers(s, counters, i);
    case RelayUp => HeardNumbers(s, counters, s.client.socket[s.upTaken]);
    case RelayDown => assert AllUp(Apply(s, e)) == AllUp(s);
    case InjectUp(frame) => HeardNumbers(s, counters, frame);
    case InjectDown(_) => assert AllUp(Apply(s, e)) == AllUp(s);
    case ClientOpens => OpeningNumbers(s, counters);
    case ClientSends(stream, msg) => SendNumbers(s, counters, stream, msg);
    case DaemonSends(stream, msg) => ReplyNumbers(s.daemon, stream, msg);
  }

  lemma {:induction false} RunNumbers(s: System, counters: seq<nat>, events: seq<Event>) returns (after: seq<nat>)
    requires Numbered(s, counters) && CanRun(s, events)
    ensures Numbered(Run(s, events), after)
    decreases |events|
  {
    after := counters;
    if events != [] {
      StepNumbers(s, counters, events[0]);
      after := RunNumbers(Apply(s, events[0]), CountersAfter(s, counters, events[0]), events[1..]);
    }
  }

  // Frames with different counters have different nonces.
  lemma StampsDiffer(f: Carrier, g: Carrier, role: Role, m: nat, n: nat)
    requires Stamped(f, role, m) && Stamped(g, role, n) && m != n && m < U64_MAX && n < U64_MAX
    ensures Pair(f) != Pair(g)
  {
    if NonceBytes(m) == NonceBytes(n) {
      NonceInjective(m, n);
    }
  }

  // Whatever the relay delivers to either end and in whatever order encryptions finish, no two frames of
  // one connection are sealed under the same key and nonce, not even when the salt is all zero and the
  // provisional keys are the real ones.
  lemma NoPairTwice(root: Bytes, deviceStep: bool, salt: Bytes, events: seq<Event>, i: nat, j: nat)
    requires CanRun(Start(root, deviceStep, salt), events)
    requires (var s := Run(Start(root, deviceStep, salt), events);
              i < j < |AllUp(s) + s.daemon.written|)
    ensures (var s := Run(Start(root, deviceStep, salt), events);
             var frames := AllUp(s) + s.daemon.written;
             Pair(frames[i]).Some? && Pair(frames[i]) != Pair(frames[j]))
  {
    var s := Run(Start(root, deviceStep, salt), events);
    var counters := RunNumbers(Start(root, deviceStep, salt), [], events);
    PairsDiffer(AllUp(s), s.client.sealCounter, counters, s.daemon, i, j);
  }

  lemma PairsDiffer(up: seq<Carrier>, next: nat, counters: seq<nat>, d: DaemonState, i: nat, j: nat)
    requires ClientNumbered(up, next, counters) && DaemonNumbered(d) && i < j < |up| + |d.written|
    ensures (var frames := up + d.written; Pair(frames[i]).Some? && Pair(frames[i]) != Pair(frames[j]))
  {
    var n := |up|;
    if j < n {
      StampsDiffer(up[i], up[j], Client, counters[i], counters[j]);
    } else if i >= n {
      StampsDiffer(d.written[i - n], d.written[j - n], Daemon, i - n, j - n);
    } else {
      assert Stamped(up[i], Client, counters[i]) && Stamped(d.written[j - n], Daemon, j - n);
    }
  }

  // ------------------------------------------------- encryptions out of order

  // With several encryptions under way and everything written so far delivered, the frame that
  // is written next is accepted exactly when it is the one that was started first.
  lemma OvertakenFrameBreaks(s: System, i: nat)
    requires Lossless(s) && s.daemon.phase.Established? && s.upTaken == |s.client.socket| && i < |s.encrypting|
    ensures (var t := Apply(Apply(s, EncryptionDone(i)), RelayUp);
             !t.daemon.phase.Broken? <==> i == 0)
  {
    if i == 0 {
      EncryptionStep(s);
      RelayUpStep(Apply(s, EncryptionDone(0)));
    } else {
      var n := s.upTaken;
      assert s.encrypting[i] == AllUp(s)[n + i] == UpFrame(s, n + i);
      assert Apply(s, EncryptionDone(i)).client.socket[n] == s.encrypting[i];
      WrongCounterBreaks(s.daemon, UpFrame(s, n + i), n + i);
    }
  }

  lemma WrongCounterBreaks(d: DaemonState, frame: Carrier, counter: u64)
    requires d.phase.Established? && counter != d.phase.count
    requires frame.Carrier? && frame.wire.Wire? && frame.wire.counter == BytesBE(counter, COUNTER_LEN)
    ensures Receiving(d, frame).phase.Broken?
  {
    FieldRanges();
    ReadWrittenBE(counter, COUNTER_LEN);
  }
}
