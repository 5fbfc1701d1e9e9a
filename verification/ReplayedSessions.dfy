// What replaying a whole connection to another daemon session does: the exact limits of module
// HostileHandover. A salt is the client's choice alone, so a daemon that is made to take one again opens
// that connection's frames again and seals its replies under keys and nonces that were used before.
module ReplayedSessions {
  import opened Results
  import opened SealedChannel
  import opened Tunnel
  import opened HostileHandover

  // ------------------------------------------------------ runs, put together

  // One run behind another.
  lemma {:induction false} JoinRuns(s: Handover.System, e: Elsewhere, a: seq<Handover.Event>, b: seq<Handover.Event>)
    requires Hostile(s, e, a) && Hostile(Handover.Run(s, a), e, b)
    ensures Hostile(s, e, a + b) && Handover.Run(s, a + b) == Handover.Run(Handover.Run(s, a), b)
    decreases |a|
  {
    if a == [] {
      assert a + b == b;
    } else {
      JoinRuns(Handover.Apply(s, a[0]), e, a[1..], b);
      assert (a + b)[0] == a[0] && (a + b)[1..] == a[1..] + b;
    }
  }

  lemma OneMore(s: Handover.System, e: Elsewhere, a: seq<Handover.Event>, event: Handover.Event)
    requires Hostile(s, e, a) && Handover.Enabled(Handover.Run(s, a), event) && HostileHandover.Legal(Handover.Run(s, a), e, event)
    ensures Hostile(s, e, a + [event])
    ensures Handover.Run(s, a + [event]) == Handover.Apply(Handover.Run(s, a), event)
  {
    OneEvent(Handover.Run(s, a), e, event);
    JoinRuns(s, e, a, [event]);
  }

  // A relay that forwards in order does nothing a hostile one could not.
  lemma {:induction false} HonestIsHostile(s: Handover.System, e: Elsewhere, events: seq<Handover.Event>)
    requires Handover.Possible(s, events)
    ensures Hostile(s, e, events)
    decreases |events|
  {
    if events != [] {
      HonestIsHostile(Handover.Apply(s, events[0]), e, events[1..]);
    }
  }

  // ------------------------------------------------ prefixes, exactly when

  // The frames a client opens in a run, in order.
  function Opened(s: Handover.System, events: seq<Handover.Event>): seq<Carrier>
    requires Handover.CanRun(s, events)
    decreases |events|
  {
    if events == [] then []
    else
      (if events[0].ClientOpens? && OpenFrame(s.client, s.client.chain[0]).Ok? then [s.client.chain[0]] else [])
      + Opened(Handover.Apply(s, events[0]), events[1..])
  }

  lemma StepOpens(s: Handover.System, e: Elsewhere, event: Handover.Event)
    requires Guarded(s, e) && Handover.Enabled(s, event)
    ensures (var s' := Handover.Apply(s, event);
             if event.ClientOpens? && OpenFrame(s.client, s.client.chain[0]).Ok? then
               |s'.taken| == |s.taken| + 1 && s.taken <= s'.taken
               && BodyOf(s.client.chain[0]) == Some(BodyAt(ReplyKey(s), s'.taken, |s.taken|))
             else s'.taken == s.taken)
  {
    if event.ClientOpens? && OpenFrame(s.client, s.client.chain[0]).Ok? {
      OpenedBody(s.client, ReplyKey(s), s.client.chain[0], s.taken);
    }
  }

  // Frames that hold the items from the n-th on.
  ghost predicate Hold(frames: seq<Carrier>, key: Key, items: seq<Item>, n: nat)
  {
    && n + |frames| == |items|
    && (forall k: nat :: k < |frames| ==> BodyOf(frames[k]) == Some(BodyAt(key, items, n + k)))
  }

  lemma HoldFirst(frame: Carrier, rest: seq<Carrier>, key: Key, items: seq<Item>, n: nat)
    requires Hold(rest, key, items, n + 1) && BodyOf(frame) == Some(BodyAt(key, items, n))
    ensures Hold([frame] + rest, key, items, n)
  {
    forall k: nat | k < |[frame] + rest| ensures BodyOf(([frame] + rest)[k]) == Some(BodyAt(key, items, n + k)) {
      if k > 0 {
        assert ([frame] + rest)[k] == rest[k - 1];
      }
    }
  }

  // Each of them holds the item that was opened from it.
  lemma {:induction false} OpenedBodies(s: Handover.System, e: Elsewhere, events: seq<Handover.Event>)
    requires Guarded(s, e) && Hostile(s, e, events)
    ensures s.taken <= Handover.Run(s, events).taken
    ensures Hold(Opened(s, events), ReplyKey(s), Handover.Run(s, events).taken, |s.taken|)
    decreases |events|
  {
    if events != [] {
      var m := Handover.Apply(s, events[0]);
      StepKeepsGuarded(s, e, events[0]);
      StepGrows(s, events[0]);
      StepOpens(s, e, events[0]);
      OpenedBodies(m, e, events[1..]);
      OpenedFirst(s, m, events);
    }
  }

  lemma OpenedFirst(s: Handover.System, m: Handover.System, events: seq<Handover.Event>)
    requires Handover.CanRun(s, events) && events != [] && m == Handover.Apply(s, events[0]) && ReplyKey(m) == ReplyKey(s)
    requires Hold(Opened(m, events[1..]), ReplyKey(s), Handover.Run(s, events).taken, |m.taken|) && m.taken <= Handover.Run(s, events).taken
    requires if events[0].ClientOpens? && OpenFrame(s.client, s.client.chain[0]).Ok? then
               |m.taken| == |s.taken| + 1 && BodyOf(s.client.chain[0]) == Some(BodyAt(ReplyKey(s), m.taken, |s.taken|))
             else m.taken == s.taken
    ensures Hold(Opened(s, events), ReplyKey(s), Handover.Run(s, events).taken, |s.taken|)
  {
    var items, rest := Handover.Run(s, events).taken, Opened(m, events[1..]);
    if events[0].ClientOpens? && OpenFrame(s.client, s.client.chain[0]).Ok? {
      assert items[|s.taken|] == m.taken[|s.taken|];
      HoldFirst(s.client.chain[0], rest, ReplyKey(s), items, |s.taken|);
    } else {
      assert Opened(s, events) == rest;
    }
  }

  // In every run: the client has a prefix of this daemon's replies exactly when every frame it opened is
  // one that this daemon has sealed.
  lemma OwnPrefixIff(root: Bytes, deviceStep: bool, salt: Bytes, e: Elsewhere, events: seq<Handover.Event>)
    requires Plausible(root, salt, e) && Hostile(Handover.Start(root, deviceStep, salt), e, events)
    ensures (var s, o := Handover.Run(Handover.Start(root, deviceStep, salt), events), Opened(Handover.Start(root, deviceStep, salt), events);
             OwnPrefix(s) <==> forall k: nat :: k < |o| ==> BodyOf(o[k]).Some? && Carries(s.daemon.written, BodyOf(o[k]).value))
  {
    var start := Handover.Start(root, deviceStep, salt);
    StartIsGuarded(root, deviceStep, salt, e);
    RunKeepsGuarded(start, e, events);
    OpenedBodies(start, e, events);
    var s, o := Handover.Run(start, events), Opened(start, events);
    OwnRepliesIff(s);
    forall k: nat | k < |o| ensures OwnReply(s, k) <==> BodyOf(o[k]).Some? && Carries(s.daemon.written, BodyOf(o[k]).value) {
      OwnReplyIff(s, e, k);
    }
  }

  lemma OwnReplyIff(s: Handover.System, e: Elsewhere, k: nat)
    requires Guarded(s, e) && k < |s.taken|
    ensures OwnReply(s, k) <==> Carries(s.daemon.written, BodyAt(ReplyKey(s), s.taken, k))
  {
    if OwnReply(s, k) {
      assert BodyOf(s.daemon.written[k]) == Some(BodyAt(ReplyKey(s), s.taken, k));
    }
    if Carries(s.daemon.written, BodyAt(ReplyKey(s), s.taken, k)) {
      WrittenReply(s, s.taken, k);
    }
  }

  // A run in which everything is delivered and the daemon has replied n times.
  lemma {:induction false} QuietAfter(root: Bytes, deviceStep: bool, salt: Bytes, n: nat) returns (events: seq<Handover.Event>)
    requires |salt| == Handover.SALT_LEN && 1 <= n <= Handover.MAX_SAFE
    ensures (var start := Handover.Start(root, deviceStep, salt);
             && Handover.Possible(start, events) && Handover.Lossless(Handover.Run(start, events))
             && Handover.Quiet(Handover.Run(start, events)) && |Handover.Run(start, events).replied| == n)
  {
    var start := Handover.Start(root, deviceStep, salt);
    if n == 1 {
      events := Handover.EverythingIsDelivered(start);
    } else {
      var before := QuietAfter(root, deviceStep, salt, n - 1);
      var s := Handover.Run(start, before);
      Handover.QuietIsOpen(s);
      var reply := Handover.DaemonSends(CONTROL_STREAM, []);
      Handover.StepIsLossless(s, reply);
      var rest := Handover.EverythingIsDelivered(Handover.Apply(s, reply));
      Handover.OneMoreEvent(s, reply, rest);
      JoinPossible(start, before, [reply] + rest);
      events := before + ([reply] + rest);
    }
  }

  lemma {:induction false} JoinPossible(s: Handover.System, a: seq<Handover.Event>, b: seq<Handover.Event>)
    requires Handover.Possible(s, a) && Handover.Possible(Handover.Run(s, a), b)
    ensures Handover.Possible(s, a + b) && Handover.Run(s, a + b) == Handover.Run(Handover.Run(s, a), b)
    decreases |a|
  {
    if a == [] {
      assert a + b == b;
    } else {
      JoinPossible(Handover.Apply(s, a[0]), a[1..], b);
      assert (a + b)[0] == a[0] && (a + b)[1..] == a[1..] + b;
    }
  }

  // A run after which the client is ready and nothing has reached either end.
  lemma ReadyAlone(root: Bytes, deviceStep: bool, salt: Bytes, e: Elsewhere) returns (events: seq<Handover.Event>)
    ensures (var start := Handover.Start(root, deviceStep, salt);
             && Hostile(start, e, events) && Waits(Handover.Run(start, events), 0)
             && Handover.Run(start, events).client.root == root && Handover.Run(start, events).salt == salt)
  {
    var start := Handover.Start(root, deviceStep, salt);
    events := [];
    NothingMore(start, e);
    OneMore(start, e, [], Handover.HandshakeGoesOn);
    OneMore(start, e, [] + [Handover.HandshakeGoesOn], Handover.EncryptionDone(0));
    OneMore(start, e, [] + [Handover.HandshakeGoesOn] + [Handover.EncryptionDone(0)], Handover.HandshakeGoesOn);
    OneMore(start, e, [] + [Handover.HandshakeGoesOn] + [Handover.EncryptionDone(0)] + [Handover.HandshakeGoesOn], Handover.HandshakeGoesOn);
    events := [] + [Handover.HandshakeGoesOn] + [Handover.EncryptionDone(0)] + [Handover.HandshakeGoesOn] + [Handover.HandshakeGoesOn];
  }

  // The client is ready, has opened all n replies there are and has nothing queued.
  predicate Waits(s: Handover.System, n: nat)
  {
    && s.client.ready && s.client.chain == [] && s.client.openKey == Some(ReplyKey(s))
    && s.client.openCounter == n == |s.taken| == |s.replied|
  }

  lemma WaitingClient(root: Bytes, deviceStep: bool, salt: Bytes, e: Elsewhere, n: nat) returns (events: seq<Handover.Event>)
    requires |salt| == Handover.SALT_LEN && n <= Handover.MAX_SAFE
    ensures (var start := Handover.Start(root, deviceStep, salt);
             && Hostile(start, e, events) && Waits(Handover.Run(start, events), n)
             && Handover.Run(start, events).client.root == root && Handover.Run(start, events).salt == salt)
  {
    if n == 0 {
      events := ReadyAlone(root, deviceStep, salt, e);
    } else {
      var start := Handover.Start(root, deviceStep, salt);
      events := QuietAfter(root, deviceStep, salt, n);
      HonestIsHostile(start, e, events);
      Handover.QuietIsOpen(Handover.Run(start, events));
      KeepsRoot(start, events);
    }
  }

  lemma {:induction false} KeepsRoot(s: Handover.System, events: seq<Handover.Event>)
    requires Handover.CanRun(s, events)
    ensures Handover.Run(s, events).client.root == s.client.root && Handover.Run(s, events).salt == s.salt
    decreases |events|
  {
    if events != [] {
      StepGrows(s, events[0]);
      KeepsRoot(Handover.Apply(s, events[0]), events[1..]);
    }
  }

  // The frame another session sealed its n-th reply into.
  function ReplyFrame(s: Handover.System, item: Item, n: nat): Carrier
  {
    Sealing(ReplyKey(s), n, item.stream, item.msg)
  }

  // A client that waits for this daemon opens what another session sealed at that counter.
  lemma ForeignReplyOpens(s: Handover.System, e: Elsewhere, item: Item, n: nat)
    requires Waits(s, n) && n < Handover.MAX_SAFE && ReplyFrame(s, item, n).wire.body in e.bodies
    ensures (var events := [Handover.InjectDown(ReplyFrame(s, item, n)), Handover.ClientOpens];
             Hostile(s, e, events) && !OwnPrefix(Handover.Run(s, events)))
  {
    var frame := ReplyFrame(s, item, n);
    var inject := Handover.InjectDown(frame);
    var m := Handover.Apply(s, inject);
    OneEvent(s, e, inject);
    assert m.client.chain == [frame];
    Handover.SealedOpens(ReplyKey(s), n, item.stream, item.msg);
    Handover.SameChecks(m.client, ReplyKey(s), item.stream, frame.wire, item.msg);
    OneMore(s, e, [inject], Handover.ClientOpens);
    assert [inject] + [Handover.ClientOpens] == [inject, Handover.ClientOpens];
  }

  // Prefix safety holds in every run exactly when no reply that another session sealed under this salt has
  // been seen.
  lemma PrefixSafetyIff(root: Bytes, deviceStep: bool, salt: Bytes, e: Elsewhere)
    requires Plausible(root, salt, e) && |salt| == Handover.SALT_LEN
    ensures (var start := Handover.Start(root, deviceStep, salt);
             (forall events :: Hostile(start, e, events) ==> OwnPrefix(Handover.Run(start, events))) <==> Unshared(root, salt, e))
  {
    var start := Handover.Start(root, deviceStep, salt);
    if Unshared(root, salt, e) {
      forall events | Hostile(start, e, events) ensures OwnPrefix(Handover.Run(start, events)) {
        HandoverSafety(root, deviceStep, salt, e, events);
      }
    } else {
      var events := SharedReplyBreaks(root, deviceStep, salt, e);
      assert !OwnPrefix(Handover.Run(start, events));
    }
  }

  lemma SharedReplyBreaks(root: Bytes, deviceStep: bool, salt: Bytes, e: Elsewhere) returns (events: seq<Handover.Event>)
    requires Plausible(root, salt, e) && |salt| == Handover.SALT_LEN && !Unshared(root, salt, e)
    ensures Hostile(Handover.Start(root, deviceStep, salt), e, events)
    ensures !OwnPrefix(Handover.Run(Handover.Start(root, deviceStep, salt), events))
  {
    var start, key := Handover.Start(root, deviceStep, salt), Key(root, salt, Daemon);
    var b :| b in e.bodies && b.Sealed? && b.key == key;
    assert SealedElsewhere(root, salt, e, b);
    var j, n: nat :| 0 <= j < |e.sessions| && n < |e.sessions[j]| && b == BodyAt(key, e.sessions[j], n);
    var before := WaitingClient(root, deviceStep, salt, e, n);
    var s, item := Handover.Run(start, before), e.sessions[j][n];
    ForeignReplyOpens(s, e, item, n);
    var rest := [Handover.InjectDown(ReplyFrame(s, item, n)), Handover.ClientOpens];
    JoinRuns(start, e, before, rest);
    events := before + rest;
  }

  // -------------------------------------------------- a session opened again

  // The i-th frame of a client, its items and its salt given.
  function ClientFrame(root: Bytes, t: Bytes, sent: seq<Item>, i: nat): Carrier
    requires i < |sent|
  {
    Sealing(Key(root, if i == 0 then NO_SALT else t, Client), i, sent[i].stream, sent[i].msg)
  }

  // The first n of them, delivered to a daemon.
  function Replayed(root: Bytes, t: Bytes, sent: seq<Item>, n: nat): seq<Handover.Event>
    requires n <= |sent|
  {
    if n == 0 then [] else Replayed(root, t, sent, n - 1) + [Handover.InjectUp(ClientFrame(root, t, sent, n - 1))]
  }

  // A daemon that waits for a salt opens whatever part of a client's session it is given from the start,
  // however often other sessions of it have opened that before: the bound of HandoverSafety is reached.
  lemma {:induction false} SessionOpensAgain(s: Handover.System, e: Elsewhere, t: Bytes, n: nat)
    requires Guarded(s, e) && s.daemon.phase.Waiting? && |t| == Handover.SALT_LEN && 1 <= n <= |Source(s, e, t)|
    requires forall i: nat :: i < n ==> Makeable(s, e, ClientFrame(s.client.root, t, Source(s, e, t), i))
    ensures (var events := Replayed(s.client.root, t, Source(s, e, t), n);
             && Hostile(s, e, events)
             && (var s' := Handover.Run(s, events);
                 && s'.daemon.received == Source(s, e, t)[..n] && s'.daemon.phase == Handover.Established(t, 1, n)
                 && s'.daemon.root == s.client.root && s'.client == s.client))
  {
    var source := Source(s, e, t);
    SourceHead(s, e, t);
    if n == 1 {
      NothingMore(s, e);
      FirstAgain(s, t, source);
      OneMore(s, e, [], Handover.InjectUp(ClientFrame(s.client.root, t, source, 0)));
    } else {
      SessionOpensAgain(s, e, t, n - 1);
      OneMoreAgain(s, e, t, source, n - 1);
    }
  }

  lemma OneMoreAgain(s: Handover.System, e: Elsewhere, t: Bytes, source: seq<Item>, n: nat)
    requires 1 <= n < |source| <= Handover.MAX_SAFE && Makeable(s, e, ClientFrame(s.client.root, t, source, n))
    requires (var events := Replayed(s.client.root, t, source, n);
              && Hostile(s, e, events)
              && (var m := Handover.Run(s, events);
                  && m.daemon.received == source[..n] && m.daemon.phase == Handover.Established(t, 1, n)
                  && m.daemon.root == s.client.root && m.client == s.client))
    ensures (var events := Replayed(s.client.root, t, source, n + 1);
             && Hostile(s, e, events)
             && (var m := Handover.Run(s, events);
                 && m.daemon.received == source[..n + 1] && m.daemon.phase == Handover.Established(t, 1, n + 1)
                 && m.daemon.root == s.client.root && m.client == s.client))
  {
    var before := Replayed(s.client.root, t, source, n);
    var m := Handover.Run(s, before);
    NextAgain(m.daemon, s.client.root, t, source, n);
    StillMakeable(s, m, e, before, ClientFrame(s.client.root, t, source, n));
    OneMore(s, e, before, Handover.InjectUp(ClientFrame(s.client.root, t, source, n)));
  }

  lemma FirstAgain(s: Handover.System, t: Bytes, source: seq<Item>)
    requires s.daemon.phase.Waiting? && s.daemon.received == [] && s.daemon.root == s.client.root
    requires |t| == Handover.SALT_LEN && source != [] && source[0] == Item(CONTROL_STREAM, t)
    ensures (var d := Handover.Receiving(s.daemon, ClientFrame(s.client.root, t, source, 0));
             d.received == source[..1] && d.phase == Handover.Established(t, 1, 1) && d.root == s.client.root)
  {
    Handover.SealedOpens(Key(s.client.root, NO_SALT, Client), 0, CONTROL_STREAM, t);
  }

  lemma NextAgain(d: Handover.DaemonState, root: Bytes, t: Bytes, source: seq<Item>, n: nat)
    requires 1 <= n < |source| <= Handover.MAX_SAFE && d.root == root
    requires d.phase == Handover.Established(t, 1, n) && d.received == source[..n]
    ensures (var d' := Handover.Receiving(d, ClientFrame(root, t, source, n));
             d'.received == source[..n + 1] && d'.phase == Handover.Established(t, 1, n + 1) && d'.root == root)
  {
    Handover.SealedOpens(Key(root, t, Client), n, source[n].stream, source[n].msg);
    assert source[..n + 1] == source[..n] + [source[n]];
  }

  // What a relay can make it can still make later.
  lemma {:induction false} StillMakeable(s: Handover.System, s': Handover.System, e: Elsewhere, events: seq<Handover.Event>, frame: Carrier)
    requires Makeable(s, e, frame) && Handover.CanRun(s, events) && s' == Handover.Run(s, events) && s'.client == s.client
    ensures Makeable(s', e, frame)
  {
    WrittenGrows(s, events);
    if BodyOf(frame).Some? && Carries(s.daemon.written, BodyOf(frame).value) {
      CarriesMore(s.daemon.written, s'.daemon.written, BodyOf(frame).value);
    }
  }

  lemma {:induction false} WrittenGrows(s: Handover.System, events: seq<Handover.Event>)
    requires Handover.CanRun(s, events)
    ensures s.daemon.written <= Handover.Run(s, events).daemon.written
    decreases |events|
  {
    if events != [] {
      StepWrites(s, events[0]);
      WrittenGrows(Handover.Apply(s, events[0]), events[1..]);
    }
  }

  lemma StepWrites(s: Handover.System, event: Handover.Event)
    requires Handover.Enabled(s, event)
    ensures s.daemon.written <= Handover.Apply(s, event).daemon.written
  {
    match event
    case RelayUp => DaemonGrows(s.daemon, s.client.socket[s.upTaken]);
    case InjectUp(frame) => DaemonGrows(s.daemon, frame);
    case DaemonSends(stream, msg) => Handover.Replied(s.daemon, stream, msg);
    case _ =>
  }

  // ------------------------------------------------ keys and nonces used again

  // The frames of two daemon sessions, of whatever connections: they share key and nonce exactly when root,
  // salt and counter are the same, and are then the same frame exactly when the replies are.
  lemma SharedPairsIff(s: Handover.System, e: Elsewhere, s': Handover.System, e': Elsewhere, i: nat, j: nat)
    requires Guarded(s, e) && Guarded(s', e') && i < |s.daemon.written| && j < |s'.daemon.written|
    ensures (var f, g := s.daemon.written[i], s'.daemon.written[j];
             && (Handover.Pair(f) == Handover.Pair(g) <==> s.client.root == s'.client.root && Joined(s) == Joined(s') && i == j)
             && (Handover.Pair(f) == Handover.Pair(g) ==> (f == g <==> s.replied[i] == s'.replied[j])))
  {
    if NonceBytes(i) == NonceBytes(j) {
      NonceInjective(i, j);
    }
  }

  // Another connection that got no further than its salt frame.
  function OneSaltElsewhere(root: Bytes, t: Bytes): Elsewhere
  {
    Elsewhere(map[t := [Item(CONTROL_STREAM, t)]], [], {UpBody(root, t, [Item(CONTROL_STREAM, t)], 0)})
  }

  // The old salt frame, and then a reply of the daemon.
  function ReplayAndReply(root: Bytes, t: Bytes, reply: Item): seq<Handover.Event>
  {
    [Handover.InjectUp(SaltFrame(root, t))] + [Handover.DaemonSends(reply.stream, reply.msg)]
  }

  lemma OldSaltJoins(root: Bytes, deviceStep: bool, salt: Bytes, t: Bytes, reply: Item)
    requires salt != t && salt != NO_SALT && t != NO_SALT && |t| == Handover.SALT_LEN
    ensures (var start, e := Handover.Start(root, deviceStep, salt), OneSaltElsewhere(root, t);
             && Plausible(root, salt, e) && Hostile(start, e, ReplayAndReply(root, t, reply))
             && (var s := Handover.Run(start, ReplayAndReply(root, t, reply));
                 && Guarded(s, e) && s.client.root == root && Joined(s) == Some(t)
                 && |s.daemon.written| == |s.replied| == 2 && s.replied[1] == reply))
  {
    var start, e := Handover.Start(root, deviceStep, salt), OneSaltElsewhere(root, t);
    var inject, send := Handover.InjectUp(SaltFrame(root, t)), Handover.DaemonSends(reply.stream, reply.msg);
    OneSaltIsPlausible(root, salt, t);
    StartIsGuarded(root, deviceStep, salt, e);
    assert Makeable(start, e, SaltFrame(root, t));
    DaemonTakesIff(start, e, SaltFrame(root, t), t);
    OneEvent(start, e, inject);
    Handover.Replied(Handover.Run(start, [inject]).daemon, reply.stream, reply.msg);
    OneMore(start, e, [inject], send);
    RunKeepsGuarded(start, e, [inject] + [send]);
  }

  lemma OneSaltIsPlausible(root: Bytes, salt: Bytes, t: Bytes)
    requires salt != t && salt != NO_SALT && t != NO_SALT
    ensures Plausible(root, salt, OneSaltElsewhere(root, t))
  {
    var e := OneSaltElsewhere(root, t);
    assert SealedElsewhere(root, salt, e, UpBody(root, t, e.sent[t], 0));
  }

  // It does happen: for any two salts, the frame of one connection joins the daemon of the other to that
  // salt. The daemon then acknowledges and sends its first reply under the keys and nonces that the former
  // session, whatever run it was in, used for its own; another reply makes another frame of the same pair.
  lemma OldSaltIsTaken(root: Bytes, deviceStep: bool, salt: Bytes, t: Bytes, reply: Item, former: Handover.System, e': Elsewhere)
    requires salt != t && salt != NO_SALT && t != NO_SALT && |t| == Handover.SALT_LEN
    requires Guarded(former, e') && former.client.root == root && Joined(former) == Some(t)
    requires |former.replied| == |former.daemon.written| >= 2
    ensures Plausible(root, salt, OneSaltElsewhere(root, t))
    ensures Hostile(Handover.Start(root, deviceStep, salt), OneSaltElsewhere(root, t), ReplayAndReply(root, t, reply))
    ensures (var s := Handover.Run(Handover.Start(root, deviceStep, salt), ReplayAndReply(root, t, reply));
             && Joined(s) == Some(t) && |s.daemon.written| == |s.replied| == 2 && s.replied[1] == reply
             && Handover.Pair(s.daemon.written[0]) == Handover.Pair(former.daemon.written[0])
             && Handover.Pair(s.daemon.written[1]) == Handover.Pair(former.daemon.written[1])
             && (s.daemon.written[1] == former.daemon.written[1] <==> reply == former.replied[1]))
  {
    OldSaltJoins(root, deviceStep, salt, t, reply);
    var s := Handover.Run(Handover.Start(root, deviceStep, salt), ReplayAndReply(root, t, reply));
    SharedPairsIff(s, OneSaltElsewhere(root, t), former, e', 0, 0);
    SharedPairsIff(s, OneSaltElsewhere(root, t), former, e', 1, 1);
  }
}
