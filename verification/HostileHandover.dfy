// The salt exchange of module Handover under a relay that makes up whatever it can: frames of this
// connection dropped, repeated, reordered, moved to another stream or turned back, and frames of
// other connections of the same root, whose salt frames open under the same provisional key.
module HostileHandover {
  import opened Results
  import opened BigEndian
  import opened SealedChannel
  import opened Tunnel
  import Handover

  // What other connections of the root have put on the wire: the items each client sealed, by the salt it
  // drew, the replies of each other daemon session that took this connection's own salt, and the bodies a
  // relay has seen of them all.
  datatype Elsewhere = Elsewhere(sent: map<Bytes, seq<Item>>, sessions: seq<seq<Item>>, bodies: set<Body>)

  const NOWHERE: Elsewhere := Elsewhere(map[], [], {})

  // The i-th body a client seals: its salt under the provisional key, the rest under the salt's.
  function UpBody(root: Bytes, salt: Bytes, sent: seq<Item>, i: nat): Body
    requires i < |sent|
  {
    BodyAt(Key(root, if i == 0 then NO_SALT else salt, Client), sent, i)
  }

  // A client elsewhere sealed this body, a daemon elsewhere that took another salt, or one that took this.
  ghost predicate SealedElsewhere(root: Bytes, salt: Bytes, e: Elsewhere, b: Body)
    requires b.Sealed?
  {
    if b.key.sealer == Daemon then
      b.key.salt == salt ==>
        exists j, i: nat :: 0 <= j < |e.sessions| && i < |e.sessions[j]| && b == BodyAt(Key(root, salt, Daemon), e.sessions[j], i)
    else exists t, i: nat :: t in e.sent && i < |e.sent[t]| && b == UpBody(root, t, e.sent[t], i)
  }

  // Salts are drawn at random, so this connection's is not all zero and no other client's.
  ghost predicate Plausible(root: Bytes, salt: Bytes, e: Elsewhere)
  {
    && salt != NO_SALT && salt !in e.sent && NO_SALT !in e.sent
    && (forall t :: t in e.sent ==> e.sent[t] != [] && e.sent[t][0] == Item(CONTROL_STREAM, t) && |e.sent[t]| <= Handover.MAX_SAFE)
    && (forall j :: 0 <= j < |e.sessions| ==> |e.sessions[j]| <= Handover.MAX_SAFE)
    && (forall b :: b in e.bodies && b.Sealed? && b.key.root == root ==> SealedElsewhere(root, salt, e, b))
  }

  // -------------------------------------------------------------- the relay

  function BodyOf(frame: Carrier): Option<Body>
  {
    if frame.Carrier? && frame.wire.Wire? && frame.wire.body.Sealed? then Some(frame.wire.body) else None
  }

  ghost predicate Carries(frames: seq<Carrier>, body: Body)
  {
    exists i: nat :: i < |frames| && BodyOf(frames[i]) == Some(body)
  }

  // Stream and counter are the relay's choice, but a body under a key of the root it must have seen.
  ghost predicate Makeable(s: Handover.System, e: Elsewhere, frame: Carrier)
  {
    BodyOf(frame).Some? && BodyOf(frame).value.key.root == s.client.root ==>
      (var b := BodyOf(frame).value; b in e.bodies || Carries(s.client.socket, b) || Carries(s.daemon.written, b))
  }

  ghost predicate Legal(s: Handover.System, e: Elsewhere, event: Handover.Event)
  {
    match event
    case InjectUp(frame) => Makeable(s, e, frame)
    case InjectDown(frame) => Makeable(s, e, frame)
    case _ => true
  }

  ghost predicate AllLegal(s: Handover.System, e: Elsewhere, events: seq<Handover.Event>)
    requires Handover.CanRun(s, events)
    decreases |events|
  {
    events == [] || (Legal(s, e, events[0]) && AllLegal(Handover.Apply(s, events[0]), e, events[1..]))
  }

  ghost predicate Hostile(s: Handover.System, e: Elsewhere, events: seq<Handover.Event>)
  {
    Handover.CanRun(s, events) && AllLegal(s, e, events)
  }

  // -------------------------------------------------------------- invariant

  // What the client with that salt has sealed.
  function Source(s: Handover.System, e: Elsewhere, t: Bytes): seq<Item>
  {
    if t == s.salt then s.sent else if t in e.sent then e.sent[t] else []
  }

  ghost predicate SentFrame(s: Handover.System, frame: Carrier)
  {
    exists k: nat :: k < |s.sent| && frame == Handover.UpFrame(s, k)
  }

  ghost predicate Sender(s: Handover.System)
  {
    var c := s.client;
    && |s.sent| == c.sealCounter <= Handover.MAX_SAFE && (s.stage == Handover.Idle <==> s.sent == [])
    && (if s.sent == [] then Handover.AllUp(s) == [] else s.sent[0] == Item(CONTROL_STREAM, s.salt))
    && (s.stage == Handover.SealKeyReady || s.stage == Handover.Ready ==> c.sealKey == Some(Key(c.root, s.salt, Client)))
    && (forall i :: 0 <= i < |Handover.AllUp(s)| ==> SentFrame(s, Handover.AllUp(s)[i]))
  }

  // The salt the daemon took, if it has taken one.
  function Joined(s: Handover.System): Option<Bytes>
  {
    if s.daemon.received == [] then None else Some(s.daemon.received[0].msg)
  }

  ghost predicate DaemonReads(s: Handover.System, e: Elsewhere)
  {
    var d := s.daemon;
    && d.root == s.client.root
    && (d.received != [] ==> d.received <= Source(s, e, d.received[0].msg))
    && (d.phase.Waiting? ==> d.received == [])
    && (d.phase.Established? ==> Joined(s) == Some(d.phase.salt) && d.phase.count == |d.received|)
  }

  ghost predicate DaemonWrites(s: Handover.System)
  {
    var d := s.daemon;
    && |d.written| == |s.replied| <= Handover.MAX_SAFE && (Joined(s).None? ==> d.written == [])
    && (d.phase.Established? ==> d.phase.sealed == |d.written|)
    && (forall i: nat :: i < |d.written| ==>
          d.written[i] == Sealing(Key(d.root, Joined(s).value, Daemon), i, s.replied[i].stream, s.replied[i].msg))
  }

  // The key this client opens with, and the daemon sessions that took its salt seal with.
  function ReplyKey(s: Handover.System): Key
  {
    Key(s.client.root, s.salt, Daemon)
  }

  // A frame under that key is this daemon's, or was seen elsewhere.
  ghost predicate Queued(s: Handover.System, e: Elsewhere, frame: Carrier)
  {
    BodyOf(frame).Some? && BodyOf(frame).value.key == ReplyKey(s) ==>
      Carries(s.daemon.written, BodyOf(frame).value) || BodyOf(frame).value in e.bodies
  }

  // The client's i-th item is this daemon's i-th reply.
  predicate OwnReply(s: Handover.System, i: nat)
    requires i < |s.taken|
  {
    Joined(s) == Some(s.salt) && i < |s.replied| && s.taken[i] == s.replied[i]
  }

  // The client's i-th item is in a body that was seen elsewhere.
  predicate SeenElsewhere(s: Handover.System, e: Elsewhere, i: nat)
    requires i < |s.taken|
  {
    BodyAt(ReplyKey(s), s.taken, i) in e.bodies
  }

  ghost predicate ClientReads(s: Handover.System, e: Elsewhere)
  {
    var c := s.client;
    && c.ready == (s.stage == Handover.Ready) && (!c.ready ==> c.chain == [])
    && (c.ready ==> c.openKey == Some(ReplyKey(s)))
    && (forall i :: 0 <= i < |c.chain| ==> Queued(s, e, c.chain[i]))
    && (forall i :: 0 <= i < |c.deferred| ==> Queued(s, e, c.deferred[i]))
    && c.openCounter == |s.taken| <= U64 && (c.acknowledged ==> s.taken != [])
    && (forall i: nat :: i < |s.taken| ==> OwnReply(s, i) || SeenElsewhere(s, e, i))
  }

  ghost predicate Guarded(s: Handover.System, e: Elsewhere)
  {
    && Plausible(s.client.root, s.salt, e) && Sender(s) && DaemonReads(s, e) && DaemonWrites(s) && ClientReads(s, e)
  }

  // ------------------------------------------------------- what can be opened

  lemma CarriedBySocket(s: Handover.System, e: Elsewhere, b: Body) returns (k: nat)
    requires Sender(s) && Carries(s.client.socket, b)
    ensures k < |s.sent| && b == UpBody(s.client.root, s.salt, s.sent, k)
  {
    var i: nat :| i < |s.client.socket| && BodyOf(s.client.socket[i]) == Some(b);
    assert Handover.AllUp(s)[i] == s.client.socket[i];
    k :| k < |s.sent| && s.client.socket[i] == Handover.UpFrame(s, k);
  }

  // A body under a client's key that the relay can make was sealed by the client of some salt.
  lemma ClientBody(s: Handover.System, e: Elsewhere, frame: Carrier) returns (t: Bytes, k: nat)
    requires Guarded(s, e) && Makeable(s, e, frame) && BodyOf(frame).Some?
    requires BodyOf(frame).value.key.root == s.client.root && BodyOf(frame).value.key.sealer == Client
    ensures k < |Source(s, e, t)| && BodyOf(frame).value == UpBody(s.client.root, t, Source(s, e, t), k)
  {
    var b := BodyOf(frame).value;
    if b in e.bodies {
      t, k :| t in e.sent && k < |e.sent[t]| && b == UpBody(s.client.root, t, e.sent[t], k);
    } else {
      assert !Carries(s.daemon.written, b);
      t := s.salt;
      k := CarriedBySocket(s, e, b);
    }
  }

  lemma SourceHead(s: Handover.System, e: Elsewhere, t: Bytes)
    requires Plausible(s.client.root, s.salt, e) && Sender(s) && Source(s, e, t) != []
    ensures Source(s, e, t)[0] == Item(CONTROL_STREAM, t) && t != NO_SALT && |Source(s, e, t)| <= Handover.MAX_SAFE
  {}

  // The daemon takes a salt only from the salt frame of a client.
  lemma FirstTaken(s: Handover.System, e: Elsewhere, frame: Carrier)
    requires Guarded(s, e) && Makeable(s, e, frame) && s.daemon.phase.Waiting?
    requires Handover.Receiving(s.daemon, frame).phase.Established?
    ensures (var t := Handover.Receiving(s.daemon, frame).phase.salt;
             Source(s, e, t) != [] && Source(s, e, t)[0] == Item(CONTROL_STREAM, t))
  {
    var t, k := ClientBody(s, e, frame);
    SourceHead(s, e, t);
    assert k == 0;
  }

  // And from then on only what that client sealed next.
  lemma NextTaken(s: Handover.System, e: Elsewhere, frame: Carrier)
    requires Guarded(s, e) && Makeable(s, e, frame) && s.daemon.phase.Established? && frame.Carrier?
    requires OpenOutcome(Key(s.daemon.root, s.daemon.phase.salt, Client), s.daemon.phase.count, frame.stream, frame.wire).Ok?
    ensures (var source, n := Source(s, e, s.daemon.phase.salt), |s.daemon.received|;
             var r := OpenOutcome(Key(s.daemon.root, s.daemon.phase.salt, Client), s.daemon.phase.count, frame.stream, frame.wire);
             n < |source| && source[n] == Item(frame.stream, r.value))
  {
    var t, k := ClientBody(s, e, frame);
    SourceHead(s, e, t);
    SourceHead(s, e, s.daemon.phase.salt);
    assert k != 0 && t == s.daemon.phase.salt;
    NonceInjective(k, s.daemon.phase.count);
    AdditionalDataInjective(Source(s, e, t)[k].stream, k, frame.stream, s.daemon.phase.count);
  }

  // What a frame under the client's key holds when it opens.
  lemma OpenedBody(c: ClientState, key: Key, frame: Carrier, taken: seq<Item>)
    requires c.openKey == Some(key) && c.openCounter == |taken| && OpenFrame(c, frame).Ok?
    ensures |taken| < U64
    ensures BodyOf(frame) == Some(BodyAt(key, taken + [OpenFrame(c, frame).value], |taken|))
  {
    FieldRanges();
    ValueBoundBE(frame.wire.counter);
  }

  // A body that this daemon wrote under the client's key at a counter is its reply of that number.
  lemma WrittenReply(s: Handover.System, items: seq<Item>, n: nat)
    requires DaemonWrites(s) && s.daemon.root == s.client.root && n < |items| && n < U64
    requires Carries(s.daemon.written, BodyAt(ReplyKey(s), items, n))
    ensures Joined(s) == Some(s.salt) && n < |s.replied| && s.replied[n] == items[n]
  {
    var i: nat :| i < |s.daemon.written| && BodyOf(s.daemon.written[i]) == Some(BodyAt(ReplyKey(s), items, n));
    NonceInjective(i, n);
    AdditionalDataInjective(s.replied[i].stream, i, items[n].stream, n);
  }

  // What the client opens is this daemon's next reply, or was seen elsewhere.
  lemma ReplyTaken(s: Handover.System, e: Elsewhere, items: seq<Item>)
    requires Guarded(s, e) && s.client.chain != [] && OpenFrame(s.client, s.client.chain[0]).Ok?
    requires items == s.taken + [OpenFrame(s.client, s.client.chain[0]).value]
    ensures |s.taken| < U64
    ensures (Joined(s) == Some(s.salt) && |s.taken| < |s.replied| && s.replied[|s.taken|] == items[|s.taken|])
         || BodyAt(ReplyKey(s), items, |s.taken|) in e.bodies
  {
    assert Queued(s, e, s.client.chain[0]);
    OpenedBody(s.client, ReplyKey(s), s.client.chain[0], s.taken);
    if Carries(s.daemon.written, BodyAt(ReplyKey(s), items, |s.taken|)) {
      WrittenReply(s, items, |s.taken|);
    }
  }

  // ------------------------------------------------------------------- steps

  lemma CarriesMore(frames: seq<Carrier>, more: seq<Carrier>, body: Body)
    requires Carries(frames, body) && frames <= more
    ensures Carries(more, body)
  {
    var i: nat :| i < |frames| && BodyOf(frames[i]) == Some(body);
    assert more[i] == frames[i];
  }

  // Frames stay what they are while the logs grow.
  lemma QueuedMore(s: Handover.System, s': Handover.System, e: Elsewhere, frame: Carrier)
    requires Queued(s, e, frame) && s'.client.root == s.client.root && s'.salt == s.salt && s.daemon.written <= s'.daemon.written
    ensures Queued(s', e, frame)
  {
    if BodyOf(frame).Some? && Carries(s.daemon.written, BodyOf(frame).value) {
      CarriesMore(s.daemon.written, s'.daemon.written, BodyOf(frame).value);
    }
  }

  lemma QueuesMore(s: Handover.System, s': Handover.System, e: Elsewhere, frames: seq<Carrier>)
    requires forall i :: 0 <= i < |frames| ==> Queued(s, e, frames[i])
    requires s'.client.root == s.client.root && s'.salt == s.salt && s.daemon.written <= s'.daemon.written
    ensures forall i :: 0 <= i < |frames| ==> Queued(s', e, frames[i])
  {
    forall i | 0 <= i < |frames| ensures Queued(s', e, frames[i]) {
      QueuedMore(s, s', e, frames[i]);
    }
  }

  lemma SentMore(s: Handover.System, s': Handover.System, frame: Carrier)
    requires SentFrame(s, frame) && s'.client.root == s.client.root && s'.salt == s.salt && s.sent <= s'.sent
    ensures SentFrame(s', frame)
  {
    var k: nat :| k < |s.sent| && frame == Handover.UpFrame(s, k);
    assert frame == Handover.UpFrame(s', k);
  }

  // The daemon's half of a step: its logs only grow, and what it wrote before stands.
  lemma DaemonGrows(d: Handover.DaemonState, frame: Carrier)
    ensures (var d' := Handover.Receiving(d, frame);
             d'.root == d.root && d.received <= d'.received && d.written <= d'.written)
  {}

  lemma HeardFirst(s: Handover.System, e: Elsewhere, frame: Carrier)
    requires Guarded(s, e) && Makeable(s, e, frame) && s.daemon.phase.Waiting?
    ensures DaemonReads(Handover.Heard(s, frame), e) && DaemonWrites(Handover.Heard(s, frame))
  {
    if Handover.Receiving(s.daemon, frame).phase.Established? {
      FirstTaken(s, e, frame);
    }
  }

  lemma HeardNext(s: Handover.System, e: Elsewhere, frame: Carrier)
    requires Guarded(s, e) && Makeable(s, e, frame) && s.daemon.phase.Established?
    ensures DaemonReads(Handover.Heard(s, frame), e) && DaemonWrites(Handover.Heard(s, frame))
  {
    if Handover.Receiving(s.daemon, frame).phase.Established? {
      NextTaken(s, e, frame);
    }
  }

  lemma HeardKeeps(s: Handover.System, e: Elsewhere, frame: Carrier)
    requires Guarded(s, e) && Makeable(s, e, frame)
    ensures Guarded(Handover.Heard(s, frame), e)
  {
    var s' := Handover.Heard(s, frame);
    DaemonGrows(s.daemon, frame);
    if s.daemon.phase.Waiting? {
      HeardFirst(s, e, frame);
    } else if s.daemon.phase.Established? {
      HeardNext(s, e, frame);
    }
    SenderStays(s, s');
    QueueStays(s, s', e);
  }

  lemma SenderStays(s: Handover.System, s': Handover.System)
    requires Sender(s) && s'.client == s.client && s'.sent == s.sent && s'.stage == s.stage && s'.salt == s.salt
    requires s'.encrypting == s.encrypting
    ensures Sender(s')
  {
    forall i | 0 <= i < |Handover.AllUp(s')| ensures SentFrame(s', Handover.AllUp(s')[i]) {
      assert Handover.AllUp(s')[i] == Handover.AllUp(s)[i];
      SentMore(s, s', Handover.AllUp(s)[i]);
    }
  }

  lemma QueueStays(s: Handover.System, s': Handover.System, e: Elsewhere)
    requires ClientReads(s, e) && s'.client == s.client && s'.stage == s.stage && s'.salt == s.salt && s'.taken == s.taken
    requires s.daemon.written <= s'.daemon.written && s.replied <= s'.replied && s.daemon.received <= s'.daemon.received
    ensures ClientReads(s', e)
  {
    QueuesMore(s, s', e, s.client.chain);
    QueuesMore(s, s', e, s.client.deferred);
    TakenStays(s, s', e);
  }

  lemma TakenStays(s: Handover.System, s': Handover.System, e: Elsewhere)
    requires forall i: nat :: i < |s.taken| ==> OwnReply(s, i) || SeenElsewhere(s, e, i)
    requires s'.client.root == s.client.root && s'.salt == s.salt && s'.taken == s.taken
    requires s.replied <= s'.replied && s.daemon.received <= s'.daemon.received
    ensures forall i: nat :: i < |s'.taken| ==> OwnReply(s', i) || SeenElsewhere(s', e, i)
  {
    forall i: nat | i < |s'.taken| ensures OwnReply(s', i) || SeenElsewhere(s', e, i) {
      assert OwnReply(s, i) || SeenElsewhere(s, e, i);
    }
  }

  lemma RelayUpKeeps(s: Handover.System, e: Elsewhere)
    requires Guarded(s, e) && Handover.Enabled(s, Handover.RelayUp)
    ensures Guarded(Handover.Apply(s, Handover.RelayUp), e)
  {
    var frame := s.client.socket[s.upTaken];
    assert BodyOf(frame).Some? ==> Carries(s.client.socket, BodyOf(frame).value);
    HeardKeeps(s, e, frame);
    ReadingOnKeeps(Handover.Heard(s, frame), e, s.upTaken + 1);
  }

  lemma ReadingOnKeeps(s: Handover.System, e: Elsewhere, upTaken: nat)
    requires Guarded(s, e)
    ensures Guarded(s.(upTaken := upTaken), e)
  {
    SenderStays(s, s.(upTaken := upTaken));
    QueueStays(s, s.(upTaken := upTaken), e);
  }

  lemma MadeIsQueued(s: Handover.System, e: Elsewhere, frame: Carrier)
    requires Guarded(s, e) && Makeable(s, e, frame)
    ensures Queued(s, e, frame)
  {
    if BodyOf(frame).Some? && BodyOf(frame).value.key == ReplyKey(s) && Carries(s.client.socket, BodyOf(frame).value) {
      var k := CarriedBySocket(s, e, BodyOf(frame).value);
    }
  }

  lemma AbsorbKeeps(s: Handover.System, e: Elsewhere, frame: Carrier, s': Handover.System)
    requires Guarded(s, e) && Queued(s, e, frame)
    requires s' == s.(client := Absorbing(s.client, frame), downTaken := s'.downTaken)
    ensures Guarded(s', e)
  {
    AbsorbedSender(s, s');
    QueuesMore(s, s', e, s.client.chain + [frame]);
    QueuesMore(s, s', e, s.client.deferred + [frame]);
    QueuesMore(s, s', e, s.client.chain);
    QueuesMore(s, s', e, s.client.deferred);
    TakenStays(s, s', e);
  }

  lemma AbsorbedSender(s: Handover.System, s': Handover.System)
    requires Sender(s) && s'.sent == s.sent && s'.stage == s.stage && s'.salt == s.salt && s'.encrypting == s.encrypting
    requires s'.client.root == s.client.root && s'.client.sealCounter == s.client.sealCounter
    requires s'.client.sealKey == s.client.sealKey && s'.client.socket == s.client.socket
    ensures Sender(s')
  {
    forall i | 0 <= i < |Handover.AllUp(s')| ensures SentFrame(s', Handover.AllUp(s')[i]) {
      assert Handover.AllUp(s')[i] == Handover.AllUp(s)[i];
      SentMore(s, s', Handover.AllUp(s)[i]);
    }
  }

  lemma OpensKeeps(s: Handover.System, e: Elsewhere)
    requires Guarded(s, e) && s.client.chain != []
    ensures Guarded(Handover.Apply(s, Handover.ClientOpens), e)
  {
    OpeningReads(s, e);
    OpeningCore(s.client);
    AbsorbedSender(s, Handover.Apply(s, Handover.ClientOpens));
  }

  lemma OpeningCore(c: ClientState)
    requires c.chain != []
    ensures (var d := Opening(c);
             && d.root == c.root && d.sealKey == c.sealKey && d.openKey == c.openKey && d.sealCounter == c.sealCounter
             && d.ready == c.ready && d.deferred == c.deferred && d.chain == c.chain[1..] && d.socket == c.socket
             && d.openCounter == (if OpenFrame(c, c.chain[0]).Ok? then c.openCounter + 1 else c.openCounter)
             && (d.acknowledged ==> c.acknowledged || OpenFrame(c, c.chain[0]).Ok?))
  {
    var d := c.(chain := c.chain[1..]);
    var r := OpenFrame(d, c.chain[0]);
    assert r == OpenFrame(c, c.chain[0]);
    if r.Ok? {
      Handover.AcceptedFields(d, r.value);
    }
  }

  lemma OpeningReads(s: Handover.System, e: Elsewhere)
    requires Guarded(s, e) && s.client.chain != []
    ensures ClientReads(Handover.Apply(s, Handover.ClientOpens), e)
  {
    var s', c := Handover.Apply(s, Handover.ClientOpens), s.client;
    OpeningCore(c);
    OpeningQueues(s, s', e);
    OpeningTakes(s, e);
  }

  lemma TakenOneMore(s: Handover.System, s': Handover.System, e: Elsewhere)
    requires forall i: nat :: i < |s.taken| ==> OwnReply(s, i) || SeenElsewhere(s, e, i)
    requires s'.client.root == s.client.root && s'.salt == s.salt && s'.daemon == s.daemon && s'.replied == s.replied
    requires s.taken <= s'.taken && |s'.taken| == |s.taken| + 1
    requires (Joined(s) == Some(s.salt) && |s.taken| < |s.replied| && s.replied[|s.taken|] == s'.taken[|s.taken|])
          || BodyAt(ReplyKey(s), s'.taken, |s.taken|) in e.bodies
    ensures forall i: nat :: i < |s'.taken| ==> OwnReply(s', i) || SeenElsewhere(s', e, i)
  {
    forall i: nat | i < |s'.taken| ensures OwnReply(s', i) || SeenElsewhere(s', e, i) {
      if i < |s.taken| {
        assert OwnReply(s, i) || SeenElsewhere(s, e, i);
      }
    }
  }

  lemma OpeningTakes(s: Handover.System, e: Elsewhere)
    requires Guarded(s, e) && s.client.chain != []
    ensures (var s' := Handover.Apply(s, Handover.ClientOpens);
             && s'.client.openCounter == |s'.taken| <= U64 && (s'.client.acknowledged ==> s'.taken != [])
             && (forall i: nat :: i < |s'.taken| ==> OwnReply(s', i) || SeenElsewhere(s', e, i)))
  {
    var s' := Handover.Apply(s, Handover.ClientOpens);
    OpeningCore(s.client);
    if OpenFrame(s.client, s.client.chain[0]).Ok? {
      ReplyTaken(s, e, s'.taken);
      TakenOneMore(s, s', e);
    } else {
      TakenStays(s, s', e);
    }
  }

  lemma OpeningQueues(s: Handover.System, s': Handover.System, e: Elsewhere)
    requires ClientReads(s, e) && s.client.chain != [] && s'.client.chain == s.client.chain[1..]
    requires s'.client.deferred == s.client.deferred && s'.client.root == s.client.root && s'.salt == s.salt
    requires s'.daemon == s.daemon
    ensures forall i :: 0 <= i < |s'.client.chain| ==> Queued(s', e, s'.client.chain[i])
    ensures forall i :: 0 <= i < |s'.client.deferred| ==> Queued(s', e, s'.client.deferred[i])
  {
    QueuesMore(s, s', e, s.client.chain);
    QueuesMore(s, s', e, s.client.deferred);
    assert forall i :: 0 <= i < |s.client.chain| - 1 ==> s'.client.chain[i] == s.client.chain[i + 1];
  }

  lemma SendsKeeps(s: Handover.System, e: Elsewhere, stream: u32, msg: Bytes)
    requires Guarded(s, e) && Handover.Enabled(s, Handover.ClientSends(stream, msg))
    ensures Guarded(Handover.Apply(s, Handover.ClientSends(stream, msg)), e)
  {
    var s', n := Handover.Apply(s, Handover.ClientSends(stream, msg)), |s.sent|;
    assert Handover.AllUp(s') == Handover.AllUp(s) + [Handover.UpFrame(s', n)];
    forall i | 0 <= i < |Handover.AllUp(s')| ensures SentFrame(s', Handover.AllUp(s')[i]) {
      if i < |Handover.AllUp(s)| {
        SentMore(s, s', Handover.AllUp(s)[i]);
      }
    }
    QueuesMore(s, s', e, s.client.chain);
    QueuesMore(s, s', e, s.client.deferred);
    TakenStays(s, s', e);
  }

  lemma RepliesKeeps(s: Handover.System, e: Elsewhere, stream: u32, msg: Bytes)
    requires Guarded(s, e) && Handover.Enabled(s, Handover.DaemonSends(stream, msg))
    ensures Guarded(Handover.Apply(s, Handover.DaemonSends(stream, msg)), e)
  {
    var s' := Handover.Apply(s, Handover.DaemonSends(stream, msg));
    Handover.Replied(s.daemon, stream, msg);
    SenderStays(s, s');
    QueueStays(s, s', e);
  }

  lemma EncryptionKeeps(s: Handover.System, e: Elsewhere, i: nat)
    requires Guarded(s, e) && i < |s.encrypting|
    ensures Guarded(Handover.Apply(s, Handover.EncryptionDone(i)), e)
  {
    var s', up := Handover.Apply(s, Handover.EncryptionDone(i)), Handover.AllUp(s);
    Handover.EncryptionIsAdvance(s, i);
    forall k | 0 <= k < |Handover.AllUp(s')| ensures SentFrame(s', Handover.AllUp(s')[k]) {
      Handover.AdvancedAt(up, |s.client.socket|, i, k);
      SentMore(s, s', up[Handover.Origin(|s.client.socket|, i, k)]);
    }
    QueuesMore(s, s', e, s.client.chain);
    QueuesMore(s, s', e, s.client.deferred);
    TakenStays(s, s', e);
  }

  lemma BeginningKeeps(s: Handover.System, e: Elsewhere)
    requires Guarded(s, e) && s.stage == Handover.Idle
    ensures Guarded(Handover.Apply(s, Handover.HandshakeGoesOn), e)
  {
    var s' := Handover.Apply(s, Handover.HandshakeGoesOn);
    assert Handover.AllUp(s') == [Handover.UpFrame(s', 0)];
    QueuesMore(s, s', e, s.client.chain);
    QueuesMore(s, s', e, s.client.deferred);
    TakenStays(s, s', e);
  }

  lemma KeysKeep(s: Handover.System, e: Elsewhere)
    requires Guarded(s, e) && Handover.Enabled(s, Handover.HandshakeGoesOn) && s.stage != Handover.Idle
    ensures Guarded(Handover.Apply(s, Handover.HandshakeGoesOn), e)
  {
    var s' := Handover.Apply(s, Handover.HandshakeGoesOn);
    forall i | 0 <= i < |Handover.AllUp(s')| ensures SentFrame(s', Handover.AllUp(s')[i]) {
      assert Handover.AllUp(s')[i] == Handover.AllUp(s)[i];
      SentMore(s, s', Handover.AllUp(s)[i]);
    }
    QueuesMore(s, s', e, s.client.chain);
    QueuesMore(s, s', e, s.client.deferred);
    TakenStays(s, s', e);
  }

  lemma StepKeepsGuarded(s: Handover.System, e: Elsewhere, event: Handover.Event)
    requires Guarded(s, e) && Handover.Enabled(s, event) && Legal(s, e, event)
    ensures Guarded(Handover.Apply(s, event), e)
  {
    match event
    case HandshakeGoesOn => if s.stage == Handover.Idle { BeginningKeeps(s, e); } else { KeysKeep(s, e); }
    case EncryptionDone(i) => EncryptionKeeps(s, e, i);
    case RelayUp => RelayUpKeeps(s, e);
    case RelayDown => WrittenKeeps(s, e);
    case InjectUp(frame) => HeardKeeps(s, e, frame);
    case InjectDown(frame) =>
      MadeIsQueued(s, e, frame);
      AbsorbKeeps(s, e, frame, Handover.Apply(s, event));
    case ClientOpens => OpensKeeps(s, e);
    case ClientSends(stream, msg) => SendsKeeps(s, e, stream, msg);
    case DaemonSends(stream, msg) => RepliesKeeps(s, e, stream, msg);
  }

  lemma WrittenKeeps(s: Handover.System, e: Elsewhere)
    requires Guarded(s, e) && Handover.Enabled(s, Handover.RelayDown)
    ensures Guarded(Handover.Apply(s, Handover.RelayDown), e)
  {
    var frame := s.daemon.written[s.downTaken];
    assert BodyOf(frame).Some? ==> Carries(s.daemon.written, BodyOf(frame).value);
    AbsorbKeeps(s, e, frame, Handover.Apply(s, Handover.RelayDown));
  }

  // What the daemon has opened only grows.
  lemma StepGrows(s: Handover.System, event: Handover.Event)
    requires Handover.Enabled(s, event)
    ensures (var s' := Handover.Apply(s, event);
             s.daemon.received <= s'.daemon.received && s'.salt == s.salt && s'.client.root == s.client.root)
  {
    match event
    case RelayUp => DaemonGrows(s.daemon, s.client.socket[s.upTaken]);
    case InjectUp(frame) => DaemonGrows(s.daemon, frame);
    case ClientOpens => OpeningCore(s.client);
    case _ =>
  }

  lemma {:induction false} RunKeepsGuarded(s: Handover.System, e: Elsewhere, events: seq<Handover.Event>)
    requires Guarded(s, e) && Hostile(s, e, events)
    ensures (var s' := Handover.Run(s, events);
             && Guarded(s', e) && s.daemon.received <= s'.daemon.received
             && s'.salt == s.salt && s'.client.root == s.client.root)
    decreases |events|
  {
    if events != [] {
      StepKeepsGuarded(s, e, events[0]);
      StepGrows(s, events[0]);
      RunKeepsGuarded(Handover.Apply(s, events[0]), e, events[1..]);
    }
  }

  // ---------------------------------------------------------------- theorems

  lemma StartIsGuarded(root: Bytes, deviceStep: bool, salt: Bytes, e: Elsewhere)
    requires Plausible(root, salt, e)
    ensures Guarded(Handover.Start(root, deviceStep, salt), e)
  {}

  // A reply of another daemon session that took this salt.
  ghost predicate FromSession(s: Handover.System, e: Elsewhere, i: nat)
    requires i < |s.taken|
  {
    exists j :: 0 <= j < |e.sessions| && i < |e.sessions[j]| && s.taken[i] == e.sessions[j][i]
  }

  lemma SeenIsFromSession(s: Handover.System, e: Elsewhere, i: nat)
    requires Guarded(s, e) && i < |s.taken| && SeenElsewhere(s, e, i)
    ensures FromSession(s, e, i)
  {
    var b := BodyAt(ReplyKey(s), s.taken, i);
    assert SealedElsewhere(s.client.root, s.salt, e, b);
    var j, k: nat :| 0 <= j < |e.sessions| && k < |e.sessions[j]| && b == BodyAt(ReplyKey(s), e.sessions[j], k);
    NonceInjective(i, k);
    AdditionalDataInjective(s.taken[i].stream, i, e.sessions[j][k].stream, k);
  }

  // What the client has opened is a prefix of what this daemon replied, to a session with its salt.
  predicate OwnPrefix(s: Handover.System)
  {
    s.taken == [] || (Joined(s) == Some(s.salt) && s.taken <= s.replied)
  }

  lemma OwnRepliesIff(s: Handover.System)
    ensures OwnPrefix(s) <==> forall i: nat :: i < |s.taken| ==> OwnReply(s, i)
  {
    if s.taken != [] && forall i: nat :: i < |s.taken| ==> OwnReply(s, i) {
      assert OwnReply(s, 0) && OwnReply(s, |s.taken| - 1);
      assert forall i: nat :: i < |s.taken| ==> s.taken[i] == s.replied[i] by {
        forall i: nat | i < |s.taken| ensures s.taken[i] == s.replied[i] {
          assert OwnReply(s, i);
        }
      }
    }
    if OwnPrefix(s) {
      forall i: nat | i < |s.taken| ensures OwnReply(s, i) {}
    }
  }

  // Nothing another session sealed under this salt has been seen.
  predicate Unshared(root: Bytes, salt: Bytes, e: Elsewhere)
  {
    forall b :: b in e.bodies && b.Sealed? ==> b.key != Key(root, salt, Daemon)
  }

  // Whatever the relay does from the first byte on, also with a daemon it made take this salt before: the
  // daemon has opened, in order, the first so many items that one client sealed, the one whose salt it
  // took; the i-th item a client has opened is the i-th reply of a daemon session that took its salt, this
  // one or another; and a client that was acknowledged has opened something.
  lemma HandoverSafety(root: Bytes, deviceStep: bool, salt: Bytes, e: Elsewhere, events: seq<Handover.Event>)
    requires Plausible(root, salt, e) && Hostile(Handover.Start(root, deviceStep, salt), e, events)
    ensures (var s := Handover.Run(Handover.Start(root, deviceStep, salt), events);
             && (Joined(s).Some? ==> s.daemon.received <= Source(s, e, Joined(s).value))
             && (s.client.acknowledged ==> s.taken != [])
             && (forall i: nat :: i < |s.taken| ==> OwnReply(s, i) || (SeenElsewhere(s, e, i) && FromSession(s, e, i)))
             && (Unshared(root, salt, e) ==> OwnPrefix(s))
             && (s.taken != [] && OwnPrefix(s) ==> s.daemon.received <= s.sent))
  {
    var start := Handover.Start(root, deviceStep, salt);
    StartIsGuarded(root, deviceStep, salt, e);
    RunKeepsGuarded(start, e, events);
    var s := Handover.Run(start, events);
    forall i: nat | i < |s.taken| ensures OwnReply(s, i) || (SeenElsewhere(s, e, i) && FromSession(s, e, i)) {
      if SeenElsewhere(s, e, i) {
        SeenIsFromSession(s, e, i);
      }
    }
    OwnRepliesIff(s);
  }

  // With nothing to replay from elsewhere, both ends read only each other.
  lemma LoneConnectionSafety(root: Bytes, deviceStep: bool, salt: Bytes, events: seq<Handover.Event>)
    requires salt != NO_SALT && Hostile(Handover.Start(root, deviceStep, salt), NOWHERE, events)
    ensures (var s := Handover.Run(Handover.Start(root, deviceStep, salt), events);
             s.daemon.received <= s.sent && s.taken <= s.replied)
  {
    HandoverSafety(root, deviceStep, salt, NOWHERE, events);
  }

  // The salt frame of any connection.
  function SaltFrame(root: Bytes, salt: Bytes): Carrier
  {
    Sealing(Key(root, NO_SALT, Client), 0, CONTROL_STREAM, salt)
  }

  // A waiting daemon takes a salt from a frame the relay can make exactly when that is the salt frame of
  // this client or of one elsewhere; the provisional key tells them apart by nothing.
  lemma DaemonTakesIff(s: Handover.System, e: Elsewhere, frame: Carrier, t: Bytes)
    requires Guarded(s, e) && Makeable(s, e, frame) && s.daemon.phase.Waiting?
    ensures Handover.Receiving(s.daemon, frame).phase == Handover.Established(t, 1, 1)
       <==> frame == SaltFrame(s.client.root, t) && |t| == Handover.SALT_LEN
  {
    var key := Key(s.client.root, NO_SALT, Client);
    if frame.Carrier? {
      OpensExactlySealed(key, 0, frame.stream, frame.wire, t);
    }
    OpensExactlySealed(key, 0, CONTROL_STREAM, SaltFrame(s.client.root, t).wire, t);
  }

  // Once the salt frame of another connection has been replayed, this daemon answers that connection's client
  // alone: all it opens is what that client sealed, and its replies are never opened here. Without another
  // session that took this salt the client opens nothing, and its handshake is never acknowledged.
  lemma ReplayShutsOut(s: Handover.System, e: Elsewhere, t: Bytes, events: seq<Handover.Event>)
    requires Guarded(s, e) && s.daemon.phase.Waiting? && t in e.sent && |t| == Handover.SALT_LEN
    requires Makeable(s, e, SaltFrame(s.client.root, t))
    requires Hostile(Handover.Heard(s, SaltFrame(s.client.root, t)), e, events)
    ensures (var s' := Handover.Run(Handover.Heard(s, SaltFrame(s.client.root, t)), events);
             && Joined(s') == Some(t) && s'.daemon.received <= e.sent[t]
             && (forall i: nat :: i < |s'.taken| ==> FromSession(s', e, i))
             && (Unshared(s.client.root, s.salt, e) ==> s'.taken == [] && !s'.client.acknowledged))
  {
    var frame := SaltFrame(s.client.root, t);
    DaemonTakesIff(s, e, frame, t);
    HeardKeeps(s, e, frame);
    RunKeepsGuarded(Handover.Heard(s, frame), e, events);
    var s' := Handover.Run(Handover.Heard(s, frame), events);
    forall i: nat | i < |s'.taken| ensures SeenElsewhere(s', e, i) && FromSession(s', e, i) {
      SeenIsFromSession(s', e, i);
    }
    if s'.taken != [] {
      assert SeenElsewhere(s', e, 0);
    }
  }

  lemma NothingMore(s: Handover.System, e: Elsewhere)
    ensures Handover.CanRun(s, []) && AllLegal(s, e, []) && Handover.Run(s, []) == s
  {}

  lemma OneEvent(s: Handover.System, e: Elsewhere, event: Handover.Event)
    requires Handover.Enabled(s, event) && Legal(s, e, event)
    ensures Hostile(s, e, [event]) && Handover.Run(s, [event]) == Handover.Apply(s, event)
  {
    NothingMore(Handover.Apply(s, event), e);
    assert [event][1..] == [];
  }
}
