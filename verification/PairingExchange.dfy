// The pairing exchange: the daemon's run_daemon_side, the browser's pairWithCode and the checks they
// make, over a relay that knows the transport key and may rewrite everything. PAKE, MAC, AEAD and key
// derivations are ideal terms: two ends hold the same PAKE key exactly when they used the same
// code and saw the same two messages, and nobody makes a MAC or a receipt under a key of a code they do
// not know.
module PairingExchange {
  import opened Results
  import opened LittleEndian
  import opened Registry

  type Code = seq<byte>
  type Root = seq<byte>

  datatype Side = ClientSide | DaemonSide

  // A PAKE message of an honest run, or one the relay made up, which may not be a point at all.
  datatype PakeMessage = Honest(side: Side, run: nat) | Made(side: Side, number: nat, point: bool)

  datatype PakeKey = PakeKey(code: Code, client: PakeMessage, daemon: PakeMessage)

  datatype Confirmation = Mac(key: PakeKey, publicKey: PublicKey) | NotAMac
  // A room key sealed under the enrolment key of a PAKE key, for one device.
  datatype Receipt = Receipt(key: PakeKey, publicKey: PublicKey, root: Root) | NotAReceipt
  datatype Room = RoomOf(root: Root) | OtherRoom(name: string)

  datatype Payload =
    | Spake(message: PakeMessage)
    | Finish(name: string, publicKey: PublicKey, confirm: Confirmation)
    | Accept(id: DeviceId, receipt: Receipt, room: Room)
    | Reject(reason: string)
    | Garbage

  function Usable(m: PakeMessage): bool
  {
    m.Honest? || m.point
  }

  // ---------------------------------------------------------------- the client

  datatype ClientFailure =
    NotPake | Refused(reason: string) | Unusable | NotEnvelope | BadReceipt | WrongRoom | WrongDevice | TimedOut

  datatype ClientStage =
    | AwaitingPake
    | AwaitingAcceptance
    | Paired(id: DeviceId, roomKey: Root, room: Room)
    | ClientFailed(failure: ClientFailure)

  datatype ClientRun = ClientRun(
    code: Code, run: nat, publicKey: PublicKey, name: string, key: Option<PakeKey>, stage: ClientStage)

  function OwnMessage(c: ClientRun): PakeMessage
  {
    Honest(ClientSide, c.run)
  }

  // What the client does with the next message on the control stream, and what it sends.
  function ClientTakes(c: ClientRun, payload: Payload): (ClientRun, seq<Payload>)
  {
    match c.stage
    case AwaitingPake =>
      if payload.Spake? && payload.message.side == DaemonSide then
        if !Usable(payload.message) then (c.(stage := ClientFailed(Unusable)), [])
        else
          var key := PakeKey(c.code, OwnMessage(c), payload.message);
          (c.(key := Some(key), stage := AwaitingAcceptance),
           [Spake(OwnMessage(c)), Finish(c.name, c.publicKey, Mac(key, c.publicKey))])
      else if payload.Reject? then (c.(stage := ClientFailed(Refused(payload.reason))), [])
      else (c.(stage := ClientFailed(NotPake)), [])
    case AwaitingAcceptance =>
      (c.(stage := Acceptance(c, payload)), [])
    case _ => (c, [])
  }

  function Acceptance(c: ClientRun, payload: Payload): ClientStage
  {
    if payload.Reject? then ClientFailed(Refused(payload.reason))
    else if !payload.Accept? then ClientFailed(NotEnvelope)
    else
      match OpenReceipt(c.key, c.publicKey, payload.receipt)
      case None => ClientFailed(BadReceipt)
      case Some(root) =>
        if RoomOf(root) != payload.room then ClientFailed(WrongRoom)
        else if payload.id != DeviceId(c.publicKey) then ClientFailed(WrongDevice)
        else Paired(payload.id, root, payload.room)
  }

  function OpenReceipt(key: Option<PakeKey>, publicKey: PublicKey, receipt: Receipt): Option<Root>
  {
    if receipt.Receipt? && key == Some(receipt.key) && receipt.publicKey == publicKey then Some(receipt.root) else None
  }

  // ---------------------------------------------------------------- the daemon

  datatype DaemonFailure = MalformedMessage | CodeMismatch | InvalidKey | ConfirmationFailed | SaveFailed | DaemonTimedOut

  datatype DaemonStage =
    | AwaitingBegin
    | AwaitingFinish(peer: PakeMessage)
    | Done(key: PakeKey, publicKey: PublicKey, name: string)
    | DaemonFailed(failure: DaemonFailure)

  // `saved` is what the registry file holds, `devices` what the daemon holds in memory.
  datatype DaemonRun = DaemonRun(
    code: Code, run: nat, servedRoot: Root, devices: Devices, saved: Devices, stage: DaemonStage)

  // The check that gates enrolment: a usable client message, a valid key, and a MAC of
  // that key under the daemon's own PAKE key.
  function Checked(d: DaemonRun, peer: PakeMessage, publicKey: PublicKey, confirm: Confirmation): Result<PakeKey, DaemonFailure>
  {
    var key := PakeKey(d.code, peer, Honest(DaemonSide, d.run));
    if peer.side != ClientSide || !Usable(peer) then Err(CodeMismatch)
    else if !publicKey.usable then Err(InvalidKey)
    else if confirm != Mac(key, publicKey) then Err(ConfirmationFailed)
    else Ok(key)
  }

  function ReasonSent(failure: DaemonFailure): string
  {
    if failure == ConfirmationFailed || failure == CodeMismatch then "pairing_failed" else "malformed"
  }

  // What the daemon does with the next message, and what it sends. `writes` says whether the
  // registry file can be written, should it come to that.
  function DaemonTakes(d: DaemonRun, payload: Payload, writes: bool): (DaemonRun, seq<Payload>)
  {
    match d.stage
    case AwaitingBegin =>
      (d.(stage := if payload.Spake? then AwaitingFinish(payload.message) else DaemonFailed(MalformedMessage)), [])
    case AwaitingFinish(peer) =>
      if !payload.Finish? || |payload.publicKey.bytes| != 32 then (d.(stage := DaemonFailed(MalformedMessage)), [])
      else
        (match Checked(d, peer, payload.publicKey, payload.confirm)
         case Err(failure) => (d.(stage := DaemonFailed(failure)), [Reject(ReasonSent(failure))])
         case Ok(key) =>
           var e := d.(devices := Enrolled(d.devices, payload.publicKey, payload.name));
           if !writes then (e.(stage := DaemonFailed(SaveFailed)), [])
           else (e.(saved := e.devices, stage := Done(key, payload.publicKey, payload.name)),
                 [Accept(DeviceId(payload.publicKey), Receipt(key, payload.publicKey, d.servedRoot), RoomOf(d.servedRoot))]))
    case _ => (d, [])
  }

  // The client's answer to the daemon's last message: paired exactly with a receipt under its own PAKE key and
  // for its own key, the room of the room key in it, and its own device id. Anything else fails the run.
  lemma AcceptanceIff(c: ClientRun, payload: Payload)
    requires c.stage == AwaitingAcceptance
    ensures (var (after, sent) := ClientTakes(c, payload);
             && sent == [] && after == c.(stage := after.stage) && (after.stage.Paired? || after.stage.ClientFailed?)
             && (after.stage.Paired? <==>
                   payload.Accept? && payload.receipt.Receipt? && c.key == Some(payload.receipt.key)
                   && payload.receipt.publicKey == c.publicKey && payload.room == RoomOf(payload.receipt.root)
                   && payload.id == DeviceId(c.publicKey))
             && (after.stage.Paired? ==> after.stage == Paired(DeviceId(c.publicKey), payload.receipt.root, payload.room))
             && (after.stage == ClientFailed(WrongDevice) ==> payload.Accept? && payload.id != DeviceId(c.publicKey))
             && (after.stage == ClientFailed(WrongRoom) ==>
                   payload.Accept? && payload.receipt.Receipt? && payload.room != RoomOf(payload.receipt.root)))
  {}

  // The daemon's answer to the client's last message: done, with the device enrolled, saved and accepted, exactly
  // for a usable client message and key, a MAC of that key under the daemon's own PAKE key and a file that can
  // be written. Only a failed check is answered, and a wrong code and a wrong MAC are answered alike.
  lemma FinishIff(d: DaemonRun, payload: Payload, writes: bool)
    requires d.stage.AwaitingFinish?
    ensures (var (after, sent) := DaemonTakes(d, payload, writes);
             var peer := d.stage.peer;
             var key := PakeKey(d.code, peer, Honest(DaemonSide, d.run));
             && (after.stage.Done? || after.stage.DaemonFailed?)
             && (after.stage.Done? <==>
                   writes && payload.Finish? && |payload.publicKey.bytes| == 32 && payload.publicKey.usable
                   && peer.side == ClientSide && Usable(peer) && payload.confirm == Mac(key, payload.publicKey))
             && (after.stage.Done? ==>
                   && after.saved == d.devices[DeviceId(payload.publicKey) := EnrolledDevice(payload.publicKey, payload.name)]
                   && sent == [Accept(DeviceId(payload.publicKey), Receipt(key, payload.publicKey, d.servedRoot), RoomOf(d.servedRoot))])
             && (!after.stage.Done? ==> after.saved == d.saved && |sent| <= 1 && forall p :: p in sent ==> p.Reject?)
             && (sent == [Reject("pairing_failed")] <==>
                   payload.Finish? && |payload.publicKey.bytes| == 32
                   && (peer.side != ClientSide || !Usable(peer)
                       || (payload.publicKey.usable && payload.confirm != Mac(key, payload.publicKey)))))
  {}

  // ------------------------------------------------------------- the classes

  // The daemon's run: each method is one stretch between two awaited messages.
  class PairingDaemon {
    const code: Code
    const run: nat
    const servedRoot: Root
    const registry: DeviceRegistry
    var file: File
    var stage: DaemonStage

    ghost function State(): DaemonRun
      reads this, registry
    {
      DaemonRun(code, run, servedRoot, registry.devices, Contents(file), stage)
    }

    constructor (code: Code, run: nat, servedRoot: Root, registry: DeviceRegistry, file: File)
      ensures State() == DaemonRun(code, run, servedRoot, registry.devices, Contents(file), AwaitingBegin)
      ensures this.registry == registry
    {
      this.code, this.run, this.servedRoot, this.registry := code, run, servedRoot, registry;
      this.file, stage := file, AwaitingBegin;
    }

    method TakeBegin(payload: Payload)
      requires stage == AwaitingBegin
      modifies this`stage
      ensures (State(), []) == DaemonTakes(old(State()), payload, true)
    {
      stage := if payload.Spake? then AwaitingFinish(payload.message) else DaemonFailed(MalformedMessage);
    }

    method TakeFinish(payload: Payload, writes: bool) returns (sent: seq<Payload>)
      requires stage.AwaitingFinish? && Filed(registry.devices)
      modifies this`stage, this`file, registry
      ensures (State(), sent) == DaemonTakes(old(State()), payload, writes)
      ensures Filed(registry.devices)
    {
      if !payload.Finish? || |payload.publicKey.bytes| != 32 {
        stage := DaemonFailed(MalformedMessage);
        return [];
      }
      var paired := FinishPake(stage.peer, payload.publicKey, payload.confirm);
      if paired.Err? {
        stage := DaemonFailed(paired.error);
        return [Reject(ReasonSent(paired.error))];
      }
      registry.Enrol(payload.publicKey, payload.name);
      var after, saved := registry.Save(file, writes);
      file := after;
      if saved.Err? {
        stage := DaemonFailed(SaveFailed);
        return [];
      }
      SaveThenLoad(file.devices, registry.devices);
      stage := Done(paired.value, payload.publicKey, payload.name);
      return [Accept(DeviceId(payload.publicKey), Receipt(paired.value, payload.publicKey, servedRoot), RoomOf(servedRoot))];
    }

    // DaemonPairing::finish: no unverified key gets past it.
    method FinishPake(peer: PakeMessage, publicKey: PublicKey, confirm: Confirmation) returns (r: Result<PakeKey, DaemonFailure>)
      ensures r == Checked(State(), peer, publicKey, confirm)
      ensures r.Ok? ==> publicKey.usable && confirm == Mac(r.value, publicKey)
    {
      if peer.side != ClientSide || !Usable(peer) {
        return Err(CodeMismatch);
      }
      var key := PakeKey(code, peer, Honest(DaemonSide, run));
      if !publicKey.usable {
        return Err(InvalidKey);
      }
      if confirm != Mac(key, publicKey) {
        return Err(ConfirmationFailed);
      }
      return Ok(key);
    }
  }

  // What a registry file says.
  function Contents(file: File): Devices
  {
    if file.Stored? && Reading(file.devices).Ok? then Reading(file.devices).value else map[]
  }

  // PairingClient: the client's half of the PAKE, which can be finished once.
  class PairingClient {
    const code: Code
    const run: nat
    var finished: bool

    constructor (code: Code, run: nat)
      ensures this.code == code && this.run == run && !finished
    {
      this.code, this.run, finished := code, run, false;
    }

    method Finish(message: PakeMessage) returns (key: Option<PakeKey>)
      modifies this
      ensures finished
      ensures key.Some? <==> !old(finished) && message.side == DaemonSide && Usable(message)
      ensures key.Some? ==> key.value == PakeKey(code, Honest(ClientSide, run), message)
    {
      if finished {
        return None;
      }
      finished := true;
      if message.side != DaemonSide || !Usable(message) {
        return None;
      }
      return Some(PakeKey(code, Honest(ClientSide, run), message));
    }
  }

  // The browser's run: messages queue up as they arrive and are taken one at a time.
  class PairingSession {
    const client: PairingClient
    const publicKey: PublicKey
    const name: string
    var inbound: seq<Payload>
    var key: Option<PakeKey>
    var stage: ClientStage

    function State(): ClientRun
      reads this
    {
      ClientRun(client.code, client.run, publicKey, name, key, stage)
    }

    ghost predicate Valid()
      reads this, client
    {
      stage == AwaitingPake ==> !client.finished && key.None?
    }

    constructor (code: Code, run: nat, publicKey: PublicKey, name: string)
      ensures State() == ClientRun(code, run, publicKey, name, None, AwaitingPake)
      ensures Valid() && fresh(client) && inbound == []
    {
      client := new PairingClient(code, run);
      this.publicKey, this.name := publicKey, name;
      inbound, key, stage := [], None, AwaitingPake;
    }

    method Arrive(payload: Payload)
      requires Valid()
      modifies this`inbound
      ensures Valid() && State() == old(State()) && inbound == old(inbound) + [payload]
    {
      inbound := inbound + [payload];
    }

    method TakeDaemonMessage() returns (sent: seq<Payload>)
      requires Valid() && stage == AwaitingPake && inbound != []
      modifies this`inbound, this`key, this`stage, client
      ensures Valid() && (State(), sent) == ClientTakes(old(State()), old(inbound)[0])
      ensures inbound == old(inbound)[1..]
    {
      var payload := inbound[0];
      inbound := inbound[1..];
      if !payload.Spake? || payload.message.side != DaemonSide {
        stage := ClientFailed(if payload.Reject? then Refused(payload.reason) else NotPake);
        return [];
      }
      key := client.Finish(payload.message);
      if key.None? {
        stage := ClientFailed(Unusable);
        return [];
      }
      stage := AwaitingAcceptance;
      return [Spake(Honest(ClientSide, client.run)), Finish(name, publicKey, Mac(key.value, publicKey))];
    }

    method TakeAcceptance()
      requires Valid() && stage == AwaitingAcceptance && inbound != []
      modifies this`inbound, this`stage
      ensures Valid() && (State(), []) == ClientTakes(old(State()), old(inbound)[0])
      ensures inbound == old(inbound)[1..]
    {
      var payload := inbound[0];
      inbound := inbound[1..];
      if payload.Reject? {
        stage := ClientFailed(Refused(payload.reason));
        return;
      }
      if !payload.Accept? {
        stage := ClientFailed(NotEnvelope);
        return;
      }
      var roomKey := OpenReceipt(key, publicKey, payload.receipt);
      if roomKey.None? {
        stage := ClientFailed(BadReceipt);
        return;
      }
      if RoomOf(roomKey.value) != payload.room {
        stage := ClientFailed(WrongRoom);
        return;
      }
      if payload.id != DeviceId(publicKey) {
        stage := ClientFailed(WrongDevice);
        return;
      }
      stage := Paired(payload.id, roomKey.value, payload.room);
    }
  }

  // PendingCode: a code is burnt by the first attempt, successful or not.
  class PendingCode {
    const ttl: nat
    var used: bool

    constructor (ttl: nat)
      ensures this.ttl == ttl && !used
    {
      this.ttl, used := ttl, false;
    }

    method Consume(elapsed: nat) returns (r: Result<(), CodeError>)
      modifies this
      ensures (used, r) == Consuming(ttl, old(used), elapsed)
    {
      if used {
        return Err(AlreadyUsed);
      }
      if elapsed >= ttl {
        used := true;
        return Err(Expired);
      }
      used := true;
      return Ok(());
    }
  }

  datatype CodeError = AlreadyUsed | Expired

  function Consuming(ttl: nat, used: bool, elapsed: nat): (bool, Result<(), CodeError>)
  {
    (true, if used then Err(AlreadyUsed) else if elapsed >= ttl then Err(Expired) else Ok(()))
  }

  // The outcomes of a series of attempts.
  function Attempts(ttl: nat, used: bool, elapsed: seq<nat>): (r: seq<Result<(), CodeError>>)
    ensures |r| == |elapsed|
    decreases |elapsed|
  {
    if elapsed == [] then []
    else
      var (used', outcome) := Consuming(ttl, used, elapsed[0]);
      [outcome] + Attempts(ttl, used', elapsed[1..])
  }

  // However often a code is tried, only the very first try can succeed, and only within its lifetime; after
  // its lifetime that try says so, and every other says that the code was used.
  lemma {:induction false} CodeWorksOnce(ttl: nat, used: bool, elapsed: seq<nat>, i: nat)
    requires i < |elapsed|
    ensures Attempts(ttl, used, elapsed)[i].Ok? <==> i == 0 && !used && elapsed[0] < ttl
    ensures Attempts(ttl, used, elapsed)[i] == Err(AlreadyUsed) <==> i > 0 || used
    decreases |elapsed|
  {
    if i > 0 {
      CodeWorksOnce(ttl, true, elapsed[1..], i - 1);
    }
  }
}
