// What a completed pairing proves, whatever the relay did: several browsers and one daemon run in the
// same pairing room, with every message chosen by the relay.
module PairingAgreement {
  import opened Results
  import opened Registry
  import opened PairingExchange

  // The runs, the MACs and receipts the honest ends have sent, and the codes the relay knows.
  datatype World = World(
    clients: seq<ClientRun>, daemon: DaemonRun, before: Devices,
    macs: set<Confirmation>, receipts: set<Receipt>, known: set<Code>)

  datatype Event =
    | ToClient(client: nat, payload: Payload)
    | ToDaemon(payload: Payload, writes: bool)
    | ClientTimesOut(client: nat)
    | DaemonTimesOut

  // What the relay can put together: anything, except a MAC or a receipt under a key of a code it does
  // not know, unless it has seen it.
  predicate Derivable(w: World, payload: Payload)
  {
    match payload
    case Finish(_, _, confirm) => confirm.Mac? ==> confirm.key.code in w.known || confirm in w.macs
    case Accept(_, receipt, _) => receipt.Receipt? ==> receipt.key.code in w.known || receipt in w.receipts
    case _ => true
  }

  predicate Possible(w: World, e: Event)
  {
    match e
    case ToClient(i, payload) => i < |w.clients| && Derivable(w, payload)
    case ToDaemon(payload, _) => Derivable(w, payload)
    case ClientTimesOut(i) => i < |w.clients|
    case DaemonTimesOut => true
  }

  function MacsIn(sent: seq<Payload>): set<Confirmation>
  {
    set p | p in sent && p.Finish? :: p.confirm
  }

  function ReceiptsIn(sent: seq<Payload>): set<Receipt>
  {
    set p | p in sent && p.Accept? :: p.receipt
  }

  function Step(w: World, e: Event): (next: World)
    requires Possible(w, e)
    ensures |next.clients| == |w.clients|
  {
    match e
    case ToClient(i, payload) =>
      var (c, sent) := ClientTakes(w.clients[i], payload);
      w.(clients := w.clients[i := c], macs := w.macs + MacsIn(sent))
    case ToDaemon(payload, writes) =>
      var (d, sent) := DaemonTakes(w.daemon, payload, writes);
      w.(daemon := d, receipts := w.receipts + ReceiptsIn(sent))
    case ClientTimesOut(i) =>
      var c := w.clients[i];
      if c.stage.Paired? || c.stage.ClientFailed? then w
      else w.(clients := w.clients[i := c.(stage := ClientFailed(TimedOut))])
    case DaemonTimesOut =>
      if w.daemon.stage.Done? || w.daemon.stage.DaemonFailed? then w
      else w.(daemon := w.daemon.(stage := DaemonFailed(DaemonTimedOut)))
  }

  predicate Legal(w: World, events: seq<Event>)
    decreases |events|
  {
    events == [] || (Possible(w, events[0]) && Legal(Step(w, events[0]), events[1..]))
  }

  function Run(w: World, events: seq<Event>): (end: World)
    requires Legal(w, events)
    ensures |end.clients| == |w.clients|
    decreases |events|
  {
    if events == [] then w else Run(Step(w, events[0]), events[1..])
  }

  // The start of a pairing: nobody has said anything, and the relay does not know the daemon's code.
  ghost predicate Beginning(w: World)
  {
    && (forall i :: 0 <= i < |w.clients| ==>
          w.clients[i].run == i && w.clients[i].key == None && w.clients[i].stage == AwaitingPake)
    && w.daemon.stage == AwaitingBegin && w.daemon.devices == w.daemon.saved == w.before
    && w.macs == {} && w.receipts == {}
    && w.daemon.code !in w.known
  }

  // ---------------------------------------------------------------- invariant

  ghost predicate ClientKept(w: World, i: nat)
    requires i < |w.clients|
  {
    var c := w.clients[i];
    && c.run == i
    && (c.key.Some? ==> c.key.value.code == c.code && c.key.value.client == Honest(ClientSide, i)
                        && c.key.value.daemon.side == DaemonSide)
    && (c.stage == AwaitingPake ==> c.key == None)
    && (c.stage.Paired? ==> c.key.Some? && c.stage.id == DeviceId(c.publicKey) && c.stage.room == RoomOf(c.stage.roomKey)
                            && (c.code in w.known || Receipt(c.key.value, c.publicKey, c.stage.roomKey) in w.receipts))
  }

  // Every MAC that was sent confirms some client's own key, under that client's PAKE key.
  ghost predicate MacKept(w: World, confirm: Confirmation)
  {
    confirm.Mac? && exists i: nat :: i < |w.clients| && w.clients[i].key == Some(confirm.key) && w.clients[i].publicKey == confirm.publicKey
  }

  ghost predicate DaemonKept(w: World)
  {
    var d := w.daemon;
    && d.code !in w.known
    && (forall r :: r in w.receipts ==>
          r.Receipt? && d.stage.Done? && d.stage.key == r.key && d.stage.publicKey == r.publicKey && r.root == d.servedRoot)
    && (match d.stage
        case Done(key, publicKey, name) =>
          && d.saved == d.devices == Enrolled(w.before, publicKey, name)
          && key.code == d.code && key.daemon == Honest(DaemonSide, d.run)
          && Mac(key, publicKey) in w.macs
        case DaemonFailed(_) => d.saved == w.before
        case _ => d.saved == d.devices == w.before)
  }

  ghost predicate Kept(w: World)
  {
    && (forall i: nat :: i < |w.clients| ==> ClientKept(w, i))
    && (forall m :: m in w.macs ==> MacKept(w, m))
    && DaemonKept(w)
  }

  lemma ClientStepKeeps(w: World, i: nat, payload: Payload)
    requires Kept(w) && Possible(w, ToClient(i, payload))
    ensures Kept(Step(w, ToClient(i, payload)))
  {
    var w' := Step(w, ToClient(i, payload));
    var c, c' := w.clients[i], w'.clients[i];
    assert ClientKept(w, i);
    forall j: nat | j < |w'.clients| ensures ClientKept(w', j) {
      assert ClientKept(w, j);
    }
    forall m | m in w'.macs ensures MacKept(w', m) {
      if m in w.macs {
        assert MacKept(w, m);
        var j: nat :| j < |w.clients| && w.clients[j].key == Some(m.key) && w.clients[j].publicKey == m.publicKey;
        assert w'.clients[j].key == Some(m.key) && w'.clients[j].publicKey == m.publicKey;
      } else {
        assert c'.key == Some(m.key) && c'.publicKey == m.publicKey;
      }
    }
  }

  lemma DaemonStepKeeps(w: World, payload: Payload, writes: bool)
    requires Kept(w) && Possible(w, ToDaemon(payload, writes))
    ensures Kept(Step(w, ToDaemon(payload, writes)))
  {
    var w' := Step(w, ToDaemon(payload, writes));
    forall j: nat | j < |w'.clients| ensures ClientKept(w', j) {
      assert ClientKept(w, j);
    }
    forall m | m in w'.macs ensures MacKept(w', m) {
      assert MacKept(w, m);
    }
  }

  lemma StepKeeps(w: World, e: Event)
    requires Kept(w) && Possible(w, e)
    ensures Kept(Step(w, e))
    ensures Step(w, e).before == w.before && Step(w, e).known == w.known
    ensures Step(w, e).daemon.code == w.daemon.code && Step(w, e).daemon.servedRoot == w.daemon.servedRoot
    ensures Step(w, e).daemon.run == w.daemon.run
    ensures forall i :: 0 <= i < |w.clients| ==>
      Step(w, e).clients[i].code == w.clients[i].code && Step(w, e).clients[i].publicKey == w.clients[i].publicKey
  {
    match e
    case ToClient(i, payload) => ClientStepKeeps(w, i, payload);
    case ToDaemon(payload, writes) => DaemonStepKeeps(w, payload, writes);
    case ClientTimesOut(i) =>
      var w' := Step(w, e);
      forall j: nat | j < |w'.clients| ensures ClientKept(w', j) {
        assert ClientKept(w, j);
      }
      forall m | m in w'.macs ensures MacKept(w', m) {
        assert MacKept(w, m);
        var j: nat :| j < |w.clients| && w.clients[j].key == Some(m.key) && w.clients[j].publicKey == m.publicKey;
        assert w'.clients[j].key == Some(m.key) && w'.clients[j].publicKey == m.publicKey;
      }
    case DaemonTimesOut =>
      var w' := Step(w, e);
      forall j: nat | j < |w'.clients| ensures ClientKept(w', j) {
        assert ClientKept(w, j);
      }
      forall m | m in w'.macs ensures MacKept(w', m) {
        assert MacKept(w, m);
      }
  }

  lemma {:induction false} RunKeeps(w: World, events: seq<Event>)
    requires Kept(w) && Legal(w, events)
    ensures (var v := Run(w, events);
             && Kept(v) && v.before == w.before && v.known == w.known
             && v.daemon.code == w.daemon.code && v.daemon.servedRoot == w.daemon.servedRoot && v.daemon.run == w.daemon.run
             && forall i :: 0 <= i < |w.clients| ==>
                  v.clients[i].code == w.clients[i].code && v.clients[i].publicKey == w.clients[i].publicKey)
    decreases |events|
  {
    if events != [] {
      StepKeeps(w, events[0]);
      RunKeeps(Step(w, events[0]), events[1..]);
    }
  }

  // ---------------------------------------------------------------- agreement

  // If a client ends paired, then it had typed the daemon's code, the saved registry is the old one
  // plus exactly that client's key, and its room key and room are those the daemon serves.
  lemma Agreement(w: World, events: seq<Event>, i: nat)
    requires Beginning(w) && Legal(w, events) && i < |w.clients| && w.clients[i].code !in w.known
    requires Run(w, events).clients[i].stage.Paired?
    ensures (var v := Run(w, events);
             var c, d := v.clients[i], v.daemon;
             && c.code == w.daemon.code && d.stage.Done? && d.stage.publicKey == w.clients[i].publicKey
             && c.key == Some(d.stage.key)
             && d.saved == Enrolled(w.before, w.clients[i].publicKey, d.stage.name)
             && c.stage.id == DeviceId(w.clients[i].publicKey)
             && c.stage.roomKey == w.daemon.servedRoot && c.stage.room == RoomOf(w.daemon.servedRoot))
  {
    RunKeeps(w, events);
    assert ClientKept(Run(w, events), i);
  }

  // The daemon completes a run, and changes its file, only for a key confirmed under its own PAKE key, and
  // that key belongs to a client that typed its code and ran the PAKE with it.
  lemma OnlyConfirmedKeysAreEnrolled(w: World, events: seq<Event>) returns (i: nat)
    requires Beginning(w) && Legal(w, events)
    requires Run(w, events).daemon.stage.Done? || Run(w, events).daemon.saved != w.before || Run(w, events).receipts != {}
    ensures i < |w.clients| && w.clients[i].code == w.daemon.code
    ensures (var v := Run(w, events);
             && v.daemon.stage.Done? && v.clients[i].key == Some(v.daemon.stage.key)
             && v.daemon.stage.key == PakeKey(w.daemon.code, Honest(ClientSide, i), Honest(DaemonSide, w.daemon.run))
             && v.daemon.saved == Enrolled(w.before, w.clients[i].publicKey, v.daemon.stage.name))
  {
    RunKeeps(w, events);
    var v := Run(w, events);
    var m := Mac(v.daemon.stage.key, v.daemon.stage.publicKey);
    assert MacKept(v, m);
    i :| i < |v.clients| && v.clients[i].key == Some(m.key) && v.clients[i].publicKey == m.publicKey;
    assert ClientKept(v, i);
  }

  // One run of the daemon pairs at most one client.
  lemma AtMostOnePaired(w: World, events: seq<Event>, i: nat, j: nat)
    requires Beginning(w) && Legal(w, events) && i < |w.clients| && j < |w.clients|
    requires w.clients[i].code !in w.known && w.clients[j].code !in w.known
    requires Run(w, events).clients[i].stage.Paired? && Run(w, events).clients[j].stage.Paired?
    ensures i == j
  {
    Agreement(w, events, i);
    Agreement(w, events, j);
    RunKeeps(w, events);
    assert ClientKept(Run(w, events), i) && ClientKept(Run(w, events), j);
  }

  // A daemon run that fails, be it because the registry could not be saved, has sent no receipt, leaves
  // the file as it was and nobody paired.
  lemma FailedRunPairsNobody(w: World, events: seq<Event>, i: nat)
    requires Beginning(w) && Legal(w, events) && i < |w.clients| && w.clients[i].code !in w.known
    requires Run(w, events).daemon.stage.DaemonFailed?
    ensures Run(w, events).daemon.saved == w.before && Run(w, events).receipts == {}
    ensures !Run(w, events).clients[i].stage.Paired?
  {
    RunKeeps(w, events);
    if Run(w, events).clients[i].stage.Paired? {
      Agreement(w, events, i);
    }
  }

  // ------------------------------------------------------------ what does happen

  function Faithful(publicKey: PublicKey, key: PakeKey, name: string, root: Root): seq<Event>
  {
    [ToClient(0, Spake(key.daemon))]
    + ([ToDaemon(Spake(key.client), true)]
    + ([ToDaemon(Finish(name, publicKey, Mac(key, publicKey)), true)]
    + ([ToClient(0, Accept(DeviceId(publicKey), Receipt(key, publicKey, root), RoomOf(root)))] + [])))
  }

  // A relay that forwards everything pairs a client that typed the code, even if it changes the
  // label on the way: the label is not authenticated.
  lemma HonestRunPairs(w: World, name: string)
    requires Beginning(w) && |w.clients| == 1 && w.clients[0].code == w.daemon.code
    requires |w.clients[0].publicKey.bytes| == 32 && w.clients[0].publicKey.usable
    ensures (var key := PakeKey(w.daemon.code, Honest(ClientSide, 0), Honest(DaemonSide, w.daemon.run));
             var events := Faithful(w.clients[0].publicKey, key, name, w.daemon.servedRoot);
             && Legal(w, events)
             && (var v := Run(w, events);
                 && v.clients[0].stage == Paired(DeviceId(w.clients[0].publicKey), w.daemon.servedRoot, RoomOf(w.daemon.servedRoot))
                 && v.daemon.saved == Enrolled(w.before, w.clients[0].publicKey, name)))
  {
    var key := PakeKey(w.daemon.code, Honest(ClientSide, 0), Honest(DaemonSide, w.daemon.run));
    var c := w.clients[0];
    var proof := Finish(c.name, c.publicKey, Mac(key, c.publicKey));
    var start, begin := ToClient(0, Spake(key.daemon)), ToDaemon(Spake(key.client), true);
    var finish := ToDaemon(Finish(name, c.publicKey, Mac(key, c.publicKey)), true);
    var accept := Accept(DeviceId(c.publicKey), Receipt(key, c.publicKey, w.daemon.servedRoot), RoomOf(w.daemon.servedRoot));
    var w1 := Step(w, start);
    assert proof in ClientTakes(c, start.payload).1;
    assert Mac(key, c.publicKey) in w1.macs;
    var w2 := Step(w1, begin);
    var w3 := Step(w2, finish);
    assert accept in DaemonTakes(w2.daemon, finish.payload, true).1;
    assert accept.receipt in w3.receipts;
    Prepend(w3, ToClient(0, accept), []);
    Prepend(w2, finish, [ToClient(0, accept)] + []);
    Prepend(w1, begin, [finish] + ([ToClient(0, accept)] + []));
    Prepend(w, start, [begin] + ([finish] + ([ToClient(0, accept)] + [])));
  }

  lemma Prepend(w: World, e: Event, rest: seq<Event>)
    requires Possible(w, e) && Legal(Step(w, e), rest)
    ensures Legal(w, [e] + rest) && Run(w, [e] + rest) == Run(Step(w, e), rest)
  {
    assert ([e] + rest)[1..] == rest;
  }

  // Whoever types another code is not enrolled and not paired, however faithful the relay.
  lemma WrongCodeIsRefused(w: World, events: seq<Event>, i: nat)
    requires Beginning(w) && Legal(w, events) && i < |w.clients|
    requires w.clients[i].code != w.daemon.code && w.clients[i].code !in w.known
    ensures !Run(w, events).clients[i].stage.Paired?
    ensures Run(w, events).daemon.stage.Done? ==> Run(w, events).clients[i].key != Some(Run(w, events).daemon.stage.key)
  {
    RunKeeps(w, events);
    assert ClientKept(Run(w, events), i);
    if Run(w, events).clients[i].stage.Paired? {
      Agreement(w, events, i);
    }
  }
}
