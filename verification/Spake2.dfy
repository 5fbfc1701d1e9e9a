// The SPAKE2 exchange of apps/pwa/src/spake2.ts, both halves: messages as bytes on the wire, points
// through the strict codec, and the fixed-order transcript. SHA-256 and HKDF are parameters.
module Spake2 {
  import opened Results
  import Utf8
  import opened NumberTheory
  import opened LittleEndian
  import opened Buffers
  import opened BigEndian
  import opened FieldArithmetic
  import opened EdwardsCurve
  import opened EdwardsGroup
  import opened ExtendedPoints
  import opened CurveConstants
  import opened Ed25519

  type Digest = s: seq<byte> | |s| == 32 witness seq(32, _ => 0)

  // The hash functions: SHA-256, and 48 bytes of HKDF over a password.
  datatype Hashes = Hashes(sha256: seq<byte> -> Digest, hkdf: seq<byte> -> seq<byte>)

  datatype Side = Client | Daemon

  function Other(side: Side): Side
  {
    if side == Client then Daemon else Client
  }

  datatype Spake2Error = WrongMessageLength | SameSide | NotAPoint(reason: Ed25519Error)

  const MESSAGE_LEN: nat := 33
  const SIDE_CLIENT: byte := 0x41
  const SIDE_DAEMON: byte := 0x42

  const ID_CLIENT: seq<byte> := Utf8.Ascii("dsh-remote/v1/pairing/client")
  const ID_DAEMON: seq<byte> := Utf8.Ascii("dsh-remote/v1/pairing/daemon")

  // One half of an exchange after `start`; its fields never change.
  datatype Spake2State = Spake2State(
    side: Side, scalar: int, passwordScalar: nat, password: seq<byte>, point: seq<byte>, sent: seq<byte>)

  // ------------------------------------------------------------ the meaning

  function SideByte(side: Side): byte
  {
    if side == Client then SIDE_CLIENT else SIDE_DAEMON
  }

  function PasswordScalar(h: Hashes, password: seq<byte>): nat
  {
    ValueBE(h.hkdf(password)) % ORDER
  }

  // The point each side blinds with: M for the client, N for the daemon.
  function BlindingBytes(side: Side): seq<byte>
  {
    if side == Client then M_COMPRESSED else N_COMPRESSED
  }

  ghost function FixedPoint(bytes: seq<byte>): Affine
  {
    match Decoded(bytes)
    case Some(a) => a
    case None => NEUTRAL
  }

  lemma FixedPoints(side: Side)
    requires Prime(P)
    ensures OnCurve(CURVE, FixedPoint(BASE_COMPRESSED)) && Decoded(BASE_COMPRESSED).Some?
    ensures OnCurve(CURVE, FixedPoint(BlindingBytes(side))) && Decoded(BlindingBytes(side)).Some?
  {
    FixedPointsDecode();
  }

  // scalar * BASE + passwordScalar * blinding.
  ghost function BlindedPoint(side: Side, scalar: int, passwordScalar: nat): Affine
  {
    Sum(CURVE, Multiply(CURVE, Times(scalar), FixedPoint(BASE_COMPRESSED)),
        Multiply(CURVE, passwordScalar, FixedPoint(BlindingBytes(side))))
  }

  // scalar * (peer - passwordScalar * the other side's blinding).
  ghost function SharedPoint(side: Side, scalar: int, passwordScalar: nat, peer: Affine): Affine
  {
    Multiply(CURVE, Times(scalar),
             Sum(CURVE, peer, Opposite(CURVE, Multiply(CURVE, passwordScalar, FixedPoint(BlindingBytes(Other(side)))))))
  }

  ghost function Message(side: Side, scalar: int, passwordScalar: nat): seq<byte>
  {
    [SideByte(side)] + Encoded(BlindedPoint(side, scalar, passwordScalar))
  }

  function Transcript(h: Hashes, password: seq<byte>, client: seq<byte>, daemon: seq<byte>, shared: seq<byte>): seq<byte>
  {
    h.sha256(password) + h.sha256(ID_CLIENT) + h.sha256(ID_DAEMON) + client + daemon + shared
  }

  ghost function Outcome(h: Hashes, state: Spake2State, peerMessage: seq<byte>): Result<seq<byte>, Spake2Error>
  {
    if |peerMessage| != MESSAGE_LEN then Err(WrongMessageLength)
    else if peerMessage[0] != SideByte(Other(state.side)) then Err(SameSide)
    else
      match Decoded(peerMessage[1..])
      case None => Err(NotAPoint(RefusalReason(peerMessage[1..])))
      case Some(peer) =>
        var shared := Encoded(SharedPoint(state.side, state.scalar, state.passwordScalar, peer));
        var client := if state.side == Client then state.point else peerMessage[1..];
        var daemon := if state.side == Client then peerMessage[1..] else state.point;
        Ok(h.sha256(Transcript(h, state.password, client, daemon, shared)))
  }

  // ------------------------------------------------------------ the methods

  // The state that a side holds after starting with this password and scalar.
  ghost predicate Started(h: Hashes, side: Side, password: seq<byte>, scalar: int, state: Spake2State)
  {
    var passwordScalar := PasswordScalar(h, password);
    var message := Message(side, scalar, passwordScalar);
    state == Spake2State(side, scalar, passwordScalar, password, message[1..], message)
  }

  method HashToScalar(h: Hashes, password: seq<byte>) returns (scalar: nat)
    ensures scalar == ValueBE(h.hkdf(password)) % ORDER && scalar < ORDER
  {
    scalar := ScalarFromBigEndian(h.hkdf(password));
  }

  method LoadPoint(bytes: seq<byte>) returns (point: Extended)
    requires Prime(P) && Decoded(bytes).Some?
    ensures Valid(CURVE, point) && AffineOf(CURVE, point) == FixedPoint(bytes)
  {
    var r := DecompressPoint(bytes);
    point := r.value;
  }

  method Blind(side: Side, scalar: int, passwordScalar: nat) returns (point: array<byte>)
    requires Prime(P)
    ensures fresh(point) && point[..] == Encoded(BlindedPoint(side, scalar, passwordScalar))
  {
    FixedPoints(side);
    var base := LoadPoint(BASE_COMPRESSED);
    var blinding := LoadPoint(BlindingBytes(side));
    var ephemeral := ScalarMult(base, scalar);
    var blinded := ScalarMult(blinding, passwordScalar);
    AddPointsIsSum(ephemeral, blinded);
    point := CompressPoint(AddPoints(ephemeral, blinded));
  }

  method Start(h: Hashes, side: Side, password: seq<byte>, scalar: int) returns (state: Spake2State, message: array<byte>)
    requires Prime(P)
    ensures Started(h, side, password, scalar, state)
    ensures fresh(message) && message[..] == state.sent && |state.sent| == MESSAGE_LEN
    ensures message[0] == (if side == Client then 0x41 else 0x42)
    ensures Decoded(message[1..]) == Some(
      Sum(CURVE, Multiply(CURVE, Times(scalar), BASE),
          Multiply(CURVE, ValueBE(h.hkdf(password)) % ORDER, if side == Client then M else N)))
  {
    var passwordScalar := HashToScalar(h, password);
    var point := Blind(side, scalar, passwordScalar);
    message := SideAndPoint(side, point);
    state := Spake2State(side, scalar, passwordScalar, password, point[..], message[..]);
    StartedMessage(h, side, password, scalar, state);
  }

  // The point behind the byte of its side.
  method SideAndPoint(side: Side, point: array<byte>) returns (message: array<byte>)
    requires point.Length == POINT_BYTES
    ensures fresh(message) && message[..] == [SideByte(side)] + point[..] && message[1..] == message[..][1..] == point[..]
    ensures message.Length == MESSAGE_LEN && message[0] == message[..][0] == SideByte(side)
  {
    message := new byte[MESSAGE_LEN](_ => 0);
    message[0] := if side == Client then SIDE_CLIENT else SIDE_DAEMON;
    SetBytes(message, point[..], 1);
  }

  // The point a side sends: its multiple of the base point, blinded with the password's multiple of M or N.
  lemma StartedMessage(h: Hashes, side: Side, password: seq<byte>, scalar: int, state: Spake2State)
    requires Prime(P) && Started(h, side, password, scalar, state)
    ensures |state.sent| == MESSAGE_LEN && state.sent[0] == (if side == Client then 0x41 else 0x42)
    ensures Decoded(state.sent[1..]) == Some(
      Sum(CURVE, Multiply(CURVE, Times(scalar), BASE),
          Multiply(CURVE, ValueBE(h.hkdf(password)) % ORDER, if side == Client then M else N)))
  {
    FixedPointsDecode();
    MessageDecodes(side, scalar, state.passwordScalar);
  }

  // The unblinding point is the other side's.
  method Unblinded(side: Side, scalar: int, passwordScalar: nat, peer: Extended) returns (shared: array<byte>)
    requires Prime(P) && Valid(CURVE, peer)
    ensures fresh(shared) && shared[..] == Encoded(SharedPoint(side, scalar, passwordScalar, AffineOf(CURVE, peer)))
  {
    FixedPoints(Other(side));
    var unblinding := LoadPoint(if side == Client then N_COMPRESSED else M_COMPRESSED);
    var mask := ScalarMult(unblinding, passwordScalar);
    NegatePointIsOpposite(mask);
    AddPointsIsSum(peer, NegatePoint(mask));
    var sharedPoint := ScalarMult(AddPoints(peer, NegatePoint(mask)), scalar);
    shared := CompressPoint(sharedPoint);
  }

  method BuildTranscript(h: Hashes, password: seq<byte>, client: seq<byte>, daemon: seq<byte>, shared: seq<byte>)
    returns (transcript: array<byte>)
    requires |client| == |daemon| == |shared| == 32
    ensures fresh(transcript) && transcript[..] == Transcript(h, password, client, daemon, shared)
  {
    transcript := new byte[6 * 32](_ => 0);
    SetBytes(transcript, h.sha256(password), 0);
    SetBytes(transcript, h.sha256(ID_CLIENT), 32);
    SetBytes(transcript, h.sha256(ID_DAEMON), 64);
    assert transcript[..96] == h.sha256(password) + h.sha256(ID_CLIENT) + h.sha256(ID_DAEMON);
    SetBytes(transcript, client, 96);
    SetBytes(transcript, daemon, 128);
    SetBytes(transcript, shared, 160);
  }

  method Finish(h: Hashes, state: Spake2State, peerMessage: seq<byte>) returns (r: Result<seq<byte>, Spake2Error>)
    requires Prime(P) && |state.point| == POINT_BYTES
    ensures r == Outcome(h, state, peerMessage)
    ensures r.Ok? <==> |peerMessage| == 33 && peerMessage[0] == (if state.side == Client then 0x42 else 0x41)
                       && Decoded(peerMessage[1..]).Some?
    ensures r.Ok? ==> r.value == KeyOf(h, state.password, if state.side == Client then state.point else peerMessage[1..],
                                       if state.side == Client then peerMessage[1..] else state.point,
                                       Multiply(CURVE, Times(state.scalar),
                                                Unblinding(state.side, state.passwordScalar, Decoded(peerMessage[1..]).value)))
  {
    FixedPointsDecode();
    if |peerMessage| != MESSAGE_LEN {
      return Err(WrongMessageLength);
    }
    var expectedSide := if state.side == Client then SIDE_DAEMON else SIDE_CLIENT;
    if peerMessage[0] != expectedSide {
      return Err(SameSide);
    }
    var peerPoint := peerMessage[1..];
    var peer := DecompressPoint(peerPoint);
    if peer.Err? {
      return Err(NotAPoint(peer.error));
    }
    var shared := Unblinded(state.side, state.scalar, state.passwordScalar, peer.value);
    var clientPoint := if state.side == Client then state.point else peerPoint;
    var daemonPoint := if state.side == Client then peerPoint else state.point;
    var transcript := BuildTranscript(h, state.password, clientPoint, daemonPoint, shared[..]);
    return Ok(h.sha256(transcript[..]));
  }

  // The peer's point without the password's multiple of the peer's blinding point.
  ghost function Unblinding(side: Side, passwordScalar: nat, peer: Affine): Affine
  {
    Sum(CURVE, peer, Opposite(CURVE, Multiply(CURVE, passwordScalar, if side == Client then N else M)))
  }

  // The key of an exchange: the hash over the hashed password and identities, the two points as they were
  // sent and the shared point.
  ghost function KeyOf(h: Hashes, password: seq<byte>, client: seq<byte>, daemon: seq<byte>, shared: Affine): seq<byte>
    requires shared.y >= 0
  {
    h.sha256(h.sha256(password)
             + h.sha256(Utf8.Ascii("dsh-remote/v1/pairing/client")) + h.sha256(Utf8.Ascii("dsh-remote/v1/pairing/daemon"))
             + client + daemon + Encoded(shared))
  }

  // --------------------------------------------------------------- agreement

  // Removing the other side's blinding leaves its ephemeral point.
  lemma Unblind(a: Affine, b: Affine)
    requires Prime(P) && OnCurve(CURVE, a) && OnCurve(CURVE, b)
    ensures Sum(CURVE, Sum(CURVE, a, b), Opposite(CURVE, b)) == a
  {
    CurveIsGood();
    SumOpposite(CURVE, b);
    Associative(CURVE, a, b, Opposite(CURVE, b));
    SumNeutral(CURVE, a);
  }

  // Whatever the password scalar, both sides arrive at the same multiple of the base point.
  lemma SharedPointIsProduct(side: Side, scalar: int, peerScalar: int, passwordScalar: nat)
    requires Prime(P)
    ensures SharedPoint(side, scalar, passwordScalar, BlindedPoint(Other(side), peerScalar, passwordScalar))
         == Multiply(CURVE, Times(scalar) * Times(peerScalar), FixedPoint(BASE_COMPRESSED))
  {
    var base, blinding := FixedPoint(BASE_COMPRESSED), FixedPoint(BlindingBytes(Other(side)));
    CurveIsGood();
    FixedPoints(Other(side));
    MultiplyClosed(CURVE, Times(peerScalar), base);
    MultiplyClosed(CURVE, passwordScalar, blinding);
    Unblind(Multiply(CURVE, Times(peerScalar), base), Multiply(CURVE, passwordScalar, blinding));
    MultiplyProduct(CURVE, Times(scalar), Times(peerScalar), Times(scalar) * Times(peerScalar), base);
  }

  // The point inside a message decodes to what the sender blinded.
  lemma MessageDecodes(side: Side, scalar: int, passwordScalar: nat)
    requires Prime(P)
    ensures (var message := Message(side, scalar, passwordScalar);
             && |message| == MESSAGE_LEN && message[0] == SideByte(side)
             && Decoded(message[1..]) == Some(BlindedPoint(side, scalar, passwordScalar)))
  {
    var base, blinding := FixedPoint(BASE_COMPRESSED), FixedPoint(BlindingBytes(side));
    CurveIsGood();
    FixedPoints(side);
    MultiplyClosed(CURVE, Times(scalar), base);
    MultiplyClosed(CURVE, passwordScalar, blinding);
    SumClosed(CURVE, Multiply(CURVE, Times(scalar), base), Multiply(CURVE, passwordScalar, blinding));
    var point := BlindedPoint(side, scalar, passwordScalar);
    assert Message(side, scalar, passwordScalar)[1..] == Encoded(point);
    DecodedIsInverse(point, Encoded(point));
  }

  // For all ephemeral scalars and any shared password, the two ends finish with the same key, over the
  // product of their multiples of the base point.
  lemma Agreement(h: Hashes, password: seq<byte>, x: int, y: int, client: Spake2State, daemon: Spake2State)
    requires Prime(P)
    requires Started(h, Client, password, x, client) && Started(h, Daemon, password, y, daemon)
    ensures Outcome(h, client, daemon.sent).Ok?
    ensures Outcome(h, client, daemon.sent) == Outcome(h, daemon, client.sent)
         == Ok(KeyOf(h, password, client.sent[1..], daemon.sent[1..], Multiply(CURVE, Times(x) * Times(y), BASE)))
  {
    FixedPointsDecode();
    var w := PasswordScalar(h, password);
    MessageDecodes(Client, x, w);
    MessageDecodes(Daemon, y, w);
    SharedPointIsProduct(Client, x, y, w);
    SharedPointIsProduct(Daemon, y, x, w);
    assert Times(x) * Times(y) == Times(y) * Times(x);
  }

  // Nobody finishes against its own side, so a reflected message is refused.
  lemma ReflectionRefused(h: Hashes, side: Side, password: seq<byte>, scalar: int, state: Spake2State)
    requires Prime(P) && Started(h, side, password, scalar, state)
    ensures Outcome(h, state, state.sent) == Err(SameSide)
  {
    MessageDecodes(side, scalar, PasswordScalar(h, password));
  }

  // The transcript pins every part: equal transcripts come from the same points, the same shared
  // point and passwords with the same hash.
  lemma TranscriptPins(h: Hashes, p: seq<byte>, p': seq<byte>, c: seq<byte>, c': seq<byte>,
                       d: seq<byte>, d': seq<byte>, k: seq<byte>, k': seq<byte>)
    requires |c| == |c'| == |d| == |d'| == 32
    requires Transcript(h, p, c, d, k) == Transcript(h, p', c', d', k')
    ensures h.sha256(p) == h.sha256(p') && c == c' && d == d' && k == k'
  {
    var t, t' := Transcript(h, p, c, d, k), Transcript(h, p', c', d', k');
    assert t[..32] == h.sha256(p) && t'[..32] == h.sha256(p');
    assert t[96..128] == c && t'[96..128] == c';
    assert t[128..160] == d && t'[128..160] == d';
    assert t[160..] == k && t'[160..] == k';
  }
}
