// Sealed sessions of crates/dr-dsh-crypto/src/session.rs: one AEAD key and one counter per direction,
// and what they guarantee when the relay in between does whatever it likes. The AEAD and
// the key derivation are ideal: a sealed body opens only under its own key, nonce and additional
// data, and different derivation inputs give different keys.
module SealedChannel {
  import opened Results
  import Utf8
  import opened LittleEndian
  import opened BigEndian

  type Bytes = seq<byte>
  type u32 = x: int | 0 <= x < 0x1_0000_0000
  type u64 = x: int | 0 <= x < 0x1_0000_0000_0000_0000

  const COUNTER_LEN: nat := 8
  const STREAM_LEN: nat := 4

  const U64_MAX: nat := 0xffff_ffff_ffff_ffff

  const LABEL_AAD: Bytes := Utf8.Ascii("dsh-remote/v1/frame")

  datatype Role = Client | Daemon

  function Peer(role: Role): Role
  {
    if role == Client then Daemon else Client
  }

  // The direction a key is for: the role that seals with it.
  datatype Key = Key(root: Bytes, salt: Bytes, sealer: Role)

  datatype Body = Sealed(key: Key, nonce: Bytes, aad: Bytes, msg: Bytes) | Noise(bytes: Bytes)

  // What arrives on a stream: too short to hold a counter, or a counter and a body.
  type Header = s: Bytes | |s| == 8 witness [0, 0, 0, 0, 0, 0, 0, 0]
  datatype Wire = Short(bytes: Bytes) | Wire(counter: Header, body: Body)

  datatype SessionError = Authentication | Sequence(received: nat, expected: nat) | NonceExhausted

  function Decrypt(key: Key, nonce: Bytes, aad: Bytes, body: Body): Option<Bytes>
  {
    if body.Sealed? && body.key == key && body.nonce == nonce && body.aad == aad then Some(body.msg) else None
  }

  function NonceBytes(counter: nat): (nonce: Bytes)
    ensures |nonce| == 12
  {
    [0, 0, 0, 0] + BytesBE(counter, COUNTER_LEN)
  }

  function AdditionalData(stream: u32, counter: nat): Bytes
  {
    LABEL_AAD + BytesBE(stream, STREAM_LEN) + BytesBE(counter, COUNTER_LEN)
  }

  // The frame that seals a message for a stream at a counter.
  function Frame(key: Key, counter: nat, stream: u32, msg: Bytes): Wire
  {
    Wire(BytesBE(counter, COUNTER_LEN), Sealed(key, NonceBytes(counter), AdditionalData(stream, counter), msg))
  }

  // ------------------------------------------------------ bytes decide numbers

  lemma CounterInjective(m: u64, n: u64)
    requires BytesBE(m, COUNTER_LEN) == BytesBE(n, COUNTER_LEN)
    ensures m == n
  {
    FieldRanges();
    ReadWrittenBE(m, COUNTER_LEN);
    ReadWrittenBE(n, COUNTER_LEN);
  }

  lemma NonceInjective(m: u64, n: u64)
    requires NonceBytes(m) == NonceBytes(n)
    ensures m == n
  {
    assert NonceBytes(m)[4..] == BytesBE(m, COUNTER_LEN) && NonceBytes(n)[4..] == BytesBE(n, COUNTER_LEN);
    CounterInjective(m, n);
  }

  // The additional data pins both the stream and the counter.
  lemma AdditionalDataInjective(s: u32, m: u64, t: u32, n: u64)
    requires AdditionalData(s, m) == AdditionalData(t, n)
    ensures s == t && m == n
  {
    var k := |LABEL_AAD|;
    assert AdditionalData(s, m)[k..][..4] == BytesBE(s, STREAM_LEN) && AdditionalData(t, n)[k..][..4] == BytesBE(t, STREAM_LEN);
    assert AdditionalData(s, m)[k + 4..] == BytesBE(m, COUNTER_LEN) && AdditionalData(t, n)[k + 4..] == BytesBE(n, COUNTER_LEN);
    FieldRanges();
    ReadWrittenBE(s, STREAM_LEN);
    ReadWrittenBE(t, STREAM_LEN);
    CounterInjective(m, n);
  }

  // -------------------------------------------------------- one direction

  // What sealing produces: a frame at the current counter, or nothing at the last counter.
  function SealOutcome(key: Key, nonce: u64, stream: u32, msg: Bytes): Result<Wire, SessionError>
  {
    if nonce == U64_MAX then Err(NonceExhausted) else Ok(Frame(key, nonce, stream, msg))
  }

  // What opening produces. Only the frame sealed for this stream at the expected counter opens.
  function OpenOutcome(key: Key, nonce: u64, stream: u32, wire: Wire): Result<Bytes, SessionError>
  {
    if wire.Short? then Err(Authentication)
    else if ValueBE(wire.counter) != nonce then Err(Sequence(ValueBE(wire.counter), nonce))
    else if nonce == U64_MAX then Err(NonceExhausted)
    else
      match Decrypt(key, NonceBytes(nonce), AdditionalData(stream, nonce), wire.body)
      case None => Err(Authentication)
      case Some(msg) => Ok(msg)
  }

  // Opening succeeds on exactly one frame per message: the one sealing makes at that counter.
  lemma OpensExactlySealed(key: Key, nonce: u64, stream: u32, wire: Wire, msg: Bytes)
    ensures OpenOutcome(key, nonce, stream, wire) == Ok(msg)
       <==> SealOutcome(key, nonce, stream, msg) == Ok(wire)
  {
    FieldRanges();
    ReadWrittenBE(nonce, COUNTER_LEN);
    if wire.Wire? && ValueBE(wire.counter) == nonce {
      WriteReadBE(wire.counter);
    }
  }

  class SessionCipher {
    const key: Key
    var nonce: u64

    constructor (key: Key)
      ensures this.key == key && nonce == 0
    {
      this.key := key;
      nonce := 0;
    }

    method Seal(stream: u32, plaintext: Bytes) returns (r: Result<Wire, SessionError>)
      modifies this
      ensures r == SealOutcome(key, old(nonce), stream, plaintext)
      ensures nonce == if r.Ok? then old(nonce) + 1 else old(nonce)
      ensures r.Ok? <==> old(nonce) < U64_MAX
      ensures r.Ok? ==> ValueBE(r.value.counter) == old(nonce)
      ensures r.Ok? ==> r.value.body == Sealed(key, [0, 0, 0, 0] + r.value.counter,
        Utf8.Ascii("dsh-remote/v1/frame") + BytesBE(stream, 4) + r.value.counter, plaintext)
    {
      FieldRanges();
      ReadWrittenBE(nonce, COUNTER_LEN);
      var counter := nonce;
      if counter == U64_MAX {
        return Err(NonceExhausted);
      }
      var next := counter + 1;
      var aad := AdditionalData(stream, counter);
      var body := Sealed(key, NonceBytes(counter), aad, plaintext);
      nonce := next;
      return Ok(Wire(BytesBE(counter, COUNTER_LEN), body));
    }

    // A refused frame changes nothing.
    method Open(stream: u32, wire: Wire) returns (r: Result<Bytes, SessionError>)
      modifies this
      ensures r == OpenOutcome(key, old(nonce), stream, wire)
      ensures nonce == if r.Ok? then old(nonce) + 1 else old(nonce)
      ensures forall msg :: r == Ok(msg) <==> SealOutcome(key, old(nonce), stream, msg) == Ok(wire)
    {
      forall msg ensures OpenOutcome(key, nonce, stream, wire) == Ok(msg) <==> SealOutcome(key, nonce, stream, msg) == Ok(wire) {
        OpensExactlySealed(key, nonce, stream, wire, msg);
      }
      var expected := nonce;
      if wire.Short? {
        return Err(Authentication);
      }
      var counter := ValueBE(wire.counter);
      if counter != expected {
        return Err(Sequence(counter, expected));
      }
      if counter == U64_MAX {
        return Err(NonceExhausted);
      }
      var next := counter + 1;
      var aad := AdditionalData(stream, counter);
      var plaintext := Decrypt(key, NonceBytes(counter), aad, wire.body);
      if plaintext.None? {
        return Err(Authentication);
      }
      nonce := next;
      return Ok(plaintext.value);
    }
  }

  // A session: the role decides which direction's key seals and which opens.
  class Session {
    const role: Role
    const sealing: SessionCipher
    const opening: SessionCipher

    ghost predicate Valid(root: Bytes, salt: Bytes)
    {
      && sealing != opening
      && sealing.key == Key(root, salt, role)
      && opening.key == Key(root, salt, Peer(role))
    }

    constructor Derive(root: Bytes, salt: Bytes, role: Role)
      ensures Valid(root, salt) && this.role == role
      ensures sealing.key == Key(root, salt, role) && opening.key == Key(root, salt, if role == Client then Daemon else Client)
      ensures fresh(sealing) && fresh(opening) && sealing.nonce == 0 && opening.nonce == 0
    {
      var clientToDaemon := new SessionCipher(Key(root, salt, Client));
      var daemonToClient := new SessionCipher(Key(root, salt, Daemon));
      this.role := role;
      sealing := if role == Client then clientToDaemon else daemonToClient;
      opening := if role == Client then daemonToClient else clientToDaemon;
    }

    // Carrying a count over from the provisional session: the next counter is the one the
    // provisional session had reached.
    method SetSealedCount(counter: u64)
      modifies sealing
      ensures sealing.nonce == counter
      ensures opening != sealing ==> opening.nonce == old(opening.nonce)
    {
      sealing.nonce := counter;
    }

    method SetOpenedCount(counter: u64)
      modifies opening
      ensures opening.nonce == counter
      ensures opening != sealing ==> sealing.nonce == old(sealing.nonce)
    {
      opening.nonce := counter;
    }

    method Seal(stream: u32, plaintext: Bytes) returns (r: Result<Wire, SessionError>)
      requires sealing != opening
      modifies sealing
      ensures r == SealOutcome(sealing.key, old(sealing.nonce), stream, plaintext)
      ensures sealing.nonce == if r.Ok? then old(sealing.nonce) + 1 else old(sealing.nonce)
      ensures opening.nonce == old(opening.nonce)
    {
      r := sealing.Seal(stream, plaintext);
    }

    method Open(stream: u32, wire: Wire) returns (r: Result<Bytes, SessionError>)
      requires sealing != opening
      modifies opening
      ensures r == OpenOutcome(opening.key, old(opening.nonce), stream, wire)
      ensures opening.nonce == if r.Ok? then old(opening.nonce) + 1 else old(opening.nonce)
      ensures sealing.nonce == old(sealing.nonce)
    {
      r := opening.Open(stream, wire);
    }
  }

  // ------------------------------------------------- two ends and a hostile relay

  datatype Item = Item(stream: u32, msg: Bytes)

  // One end: its two counters, what it has sealed and what it has opened.
  datatype End = End(sealNonce: u64, openNonce: u64, sent: seq<Item>, received: seq<Item>)

  // Both ends of one connection, and every body the relay has seen.
  datatype Channel = Channel(root: Bytes, salt: Bytes, client: End, daemon: End, bodies: set<Body>)

  datatype Event =
    | Seals(role: Role, stream: u32, msg: Bytes)
    | Arrives(role: Role, stream: u32, wire: Wire)

  function EndOf(ch: Channel, role: Role): End
  {
    if role == Client then ch.client else ch.daemon
  }

  function WithEnd(ch: Channel, role: Role, e: End): Channel
  {
    if role == Client then ch.(client := e) else ch.(daemon := e)
  }

  function KeyOf(ch: Channel, sealer: Role): Key
  {
    Key(ch.root, ch.salt, sealer)
  }

  // The relay may hand any frame on any stream to either end. It can choose the counter freely and
  // make up bodies, except that it cannot make a body under the connection's own keys.
  predicate Possible(ch: Channel, e: Event)
  {
    e.Arrives? && e.wire.Wire? && e.wire.body.Sealed?
      && (e.wire.body.key == KeyOf(ch, Client) || e.wire.body.key == KeyOf(ch, Daemon))
    ==> e.wire.body in ch.bodies
  }

  function Step(ch: Channel, e: Event): Channel
  {
    var me := EndOf(ch, e.role);
    match e
    case Seals(role, stream, msg) =>
      (match SealOutcome(KeyOf(ch, role), me.sealNonce, stream, msg)
       case Err(_) => ch
       case Ok(wire) =>
         WithEnd(ch, role, me.(sealNonce := me.sealNonce + 1, sent := me.sent + [Item(stream, msg)]))
           .(bodies := ch.bodies + {wire.body}))
    case Arrives(role, stream, wire) =>
      match OpenOutcome(KeyOf(ch, Peer(role)), me.openNonce, stream, wire)
      case Err(_) => ch
      case Ok(msg) => WithEnd(ch, role, me.(openNonce := me.openNonce + 1, received := me.received + [Item(stream, msg)]))
  }

  function Run(ch: Channel, events: seq<Event>): Channel
    decreases |events|
  {
    if events == [] then ch else Run(Step(ch, events[0]), events[1..])
  }

  predicate Legal(ch: Channel, events: seq<Event>)
    decreases |events|
  {
    events == [] || (Possible(ch, events[0]) && Legal(Step(ch, events[0]), events[1..]))
  }

  function BodyAt(key: Key, sent: seq<Item>, i: nat): Body
    requires i < |sent|
  {
    Sealed(key, NonceBytes(i), AdditionalData(sent[i].stream, i), sent[i].msg)
  }

  // One direction: the counters are the lengths of the logs, the receiver has a prefix of what was
  // sealed, every body under the key is a logged one, and those still to be opened exist.
  ghost predicate Direction(key: Key, sender: End, receiver: End, bodies: set<Body>)
  {
    && sender.sealNonce == |sender.sent| && receiver.openNonce == |receiver.received|
    && receiver.received <= sender.sent
    && (forall b :: b in bodies && b.Sealed? && b.key == key ==> exists i: nat :: i < |sender.sent| && BodyAt(key, sender.sent, i) == b)
    && (forall i: nat :: |receiver.received| <= i < |sender.sent| ==> BodyAt(key, sender.sent, i) in bodies)
  }

  ghost predicate Secure(ch: Channel)
  {
    && Direction(KeyOf(ch, Client), ch.client, ch.daemon, ch.bodies)
    && Direction(KeyOf(ch, Daemon), ch.daemon, ch.client, ch.bodies)
  }

  // A connection after the salt exchange: what was carried over counts as sealed and opened.
  ghost predicate Handover(ch: Channel)
  {
    && Secure(ch)
    && ch.client.sent == ch.daemon.received && ch.daemon.sent == ch.client.received
  }

  lemma SealExtends(key: Key, sender: End, receiver: End, bodies: set<Body>, item: Item)
    requires Direction(key, sender, receiver, bodies) && sender.sealNonce < U64_MAX
    ensures (var n := sender.sealNonce;
             Direction(key, sender.(sealNonce := n + 1, sent := sender.sent + [item]), receiver,
                       bodies + {Frame(key, n, item.stream, item.msg).body}))
  {
    var n := sender.sealNonce;
    var sent := sender.sent + [item];
    var body := Frame(key, n, item.stream, item.msg).body;
    assert BodyAt(key, sent, n) == body;
    assert forall i: nat :: i < n ==> BodyAt(key, sent, i) == BodyAt(key, sender.sent, i);
    forall b | b in bodies + {body} && b.Sealed? && b.key == key
      ensures exists i: nat :: i < |sent| && BodyAt(key, sent, i) == b
    {
      if b != body {
        var i: nat :| i < n && BodyAt(key, sender.sent, i) == b;
        assert BodyAt(key, sent, i) == b;
      }
    }
  }

  // Whatever the relay hands over, an opened frame is the next one the peer sealed.
  lemma OpenTakesNext(key: Key, sender: End, receiver: End, bodies: set<Body>, stream: u32, wire: Wire)
    requires Direction(key, sender, receiver, bodies)
    requires OpenOutcome(key, receiver.openNonce, stream, wire).Ok? && wire.body in bodies
    ensures (var msg, n := OpenOutcome(key, receiver.openNonce, stream, wire).value, |receiver.received|;
             n < |sender.sent| && sender.sent[n] == Item(stream, msg))
  {
    var i: nat :| i < |sender.sent| && BodyAt(key, sender.sent, i) == wire.body;
    assert i < sender.sealNonce;
    NonceInjective(i, receiver.openNonce);
    AdditionalDataInjective(sender.sent[i].stream, i, stream, receiver.openNonce);
  }

  lemma StepKeepsSecure(ch: Channel, e: Event)
    requires Secure(ch) && Possible(ch, e)
    ensures Secure(Step(ch, e))
  {
    match e
    case Seals(role, stream, msg) =>
      if EndOf(ch, role).sealNonce < U64_MAX {
        SealKeepsSecure(ch, role, stream, msg);
      }
    case Arrives(role, stream, wire) =>
      if OpenOutcome(KeyOf(ch, Peer(role)), EndOf(ch, role).openNonce, stream, wire).Ok? {
        OpenKeepsSecure(ch, role, stream, wire);
      }
  }

  lemma OpenKeepsSecure(ch: Channel, role: Role, stream: u32, wire: Wire)
    requires Secure(ch) && Possible(ch, Arrives(role, stream, wire))
    requires OpenOutcome(KeyOf(ch, Peer(role)), EndOf(ch, role).openNonce, stream, wire).Ok?
    ensures Secure(Step(ch, Arrives(role, stream, wire)))
  {
    OpenTakesNext(KeyOf(ch, Peer(role)), EndOf(ch, Peer(role)), EndOf(ch, role), ch.bodies, stream, wire);
  }

  lemma SealKeepsSecure(ch: Channel, role: Role, stream: u32, msg: Bytes)
    requires Secure(ch) && EndOf(ch, role).sealNonce < U64_MAX
    ensures Secure(Step(ch, Seals(role, stream, msg)))
  {
    SealExtends(KeyOf(ch, role), EndOf(ch, role), EndOf(ch, Peer(role)), ch.bodies, Item(stream, msg));
    OtherKey(ch, role, stream, msg);
  }

  // Sealing in one direction leaves the other direction alone.
  lemma OtherKey(ch: Channel, role: Role, stream: u32, msg: Bytes)
    requires Secure(ch) && EndOf(ch, role).sealNonce < U64_MAX
    ensures (var ch' := Step(ch, Seals(role, stream, msg));
             Direction(KeyOf(ch, Peer(role)), EndOf(ch', Peer(role)), EndOf(ch', role), ch'.bodies))
  {}

  lemma {:induction false} RunKeepsSecure(ch: Channel, events: seq<Event>)
    requires Secure(ch) && Legal(ch, events)
    ensures Secure(Run(ch, events)) && Run(ch, events).root == ch.root && Run(ch, events).salt == ch.salt
    decreases |events|
  {
    if events != [] {
      StepKeepsSecure(ch, events[0]);
      RunKeepsSecure(Step(ch, events[0]), events[1..]);
    }
  }

  // Whatever is dropped, repeated, reordered, reflected, injected or moved to another stream, what an
  // end has opened is a prefix of what its peer has sealed.
  lemma ChannelSafety(ch: Channel, events: seq<Event>, role: Role)
    requires Handover(ch) && Legal(ch, events)
    ensures EndOf(Run(ch, events), role).received <= EndOf(Run(ch, events), Peer(role)).sent
  {
    RunKeepsSecure(ch, events);
  }

  // No end ever uses a nonce twice under one key: two bodies with the same key and nonce are one body.
  lemma NoNonceReuse(ch: Channel, events: seq<Event>, b: Body, b': Body, role: Role)
    requires Handover(ch) && Legal(ch, events)
    requires b in Run(ch, events).bodies && b' in Run(ch, events).bodies
    requires b.Sealed? && b'.Sealed? && b.key == b'.key == KeyOf(ch, role) && b.nonce == b'.nonce
    ensures b == b'
  {
    var end := Run(ch, events);
    RunKeepsSecure(ch, events);
    var sender := EndOf(end, role);
    var i: nat :| i < |sender.sent| && BodyAt(KeyOf(ch, role), sender.sent, i) == b;
    var j: nat :| j < |sender.sent| && BodyAt(KeyOf(ch, role), sender.sent, j) == b';
    assert i < sender.sealNonce && j < sender.sealNonce;
    NonceInjective(i, j);
  }

  // ---------------------------------------------------------- honest delivery

  // The frames an end still has to open, in the order its peer sealed them.
  function Rest(key: Key, role: Role, sent: seq<Item>, n: nat): seq<Event>
    requires n <= |sent|
    decreases |sent| - n
  {
    if n == |sent| then []
    else [Arrives(role, sent[n].stream, Frame(key, n, sent[n].stream, sent[n].msg))] + Rest(key, role, sent, n + 1)
  }

  // However hostile the relay was, once it delivers what is outstanding in order everything sealed
  // is opened, and no attempt in between has damaged anything.
  lemma OrderedDelivery(ch: Channel, events: seq<Event>, role: Role)
    requires Handover(ch) && Legal(ch, events)
    ensures (var now := Run(ch, events);
             var sent := EndOf(now, Peer(role)).sent;
             && |EndOf(now, role).received| <= |sent|
             && (var rest := Rest(KeyOf(now, Peer(role)), role, sent, |EndOf(now, role).received|);
                 Legal(now, rest) && EndOf(Run(now, rest), role).received == sent))
  {
    RunKeepsSecure(ch, events);
    RestIsOpened(Run(ch, events), role);
  }

  lemma {:induction false} RestIsOpened(ch: Channel, role: Role)
    requires Secure(ch)
    ensures (var sent := EndOf(ch, Peer(role)).sent;
             var rest := Rest(KeyOf(ch, Peer(role)), role, sent, |EndOf(ch, role).received|);
             Legal(ch, rest) && EndOf(Run(ch, rest), role).received == sent)
    decreases |EndOf(ch, Peer(role)).sent| - |EndOf(ch, role).received|
  {
    var n, sent, key := |EndOf(ch, role).received|, EndOf(ch, Peer(role)).sent, KeyOf(ch, Peer(role));
    if n < |sent| {
      var rest := Rest(key, role, sent, n);
      var ch' := Step(ch, rest[0]);
      assert BodyAt(key, sent, n) in ch.bodies;
      assert n < EndOf(ch, Peer(role)).sealNonce;
      OpensExactlySealed(key, n, sent[n].stream, rest[0].wire, sent[n].msg);
      StepKeepsSecure(ch, rest[0]);
      assert EndOf(ch', role).received == EndOf(ch, role).received + [sent[n]];
      RestIsOpened(ch', role);
      assert rest[1..] == Rest(key, role, sent, n + 1);
    }
  }
}
