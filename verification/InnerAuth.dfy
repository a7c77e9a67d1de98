/**
 The inner SSH-key handshake (client and server inner_auth.rs). Hash and signatures are ideal:
 a digest determines its pre-image, and only signatures that were issued verify. The network,
 and every key outside `honest`, belong to an adversary. The channel binding `ekm` is the TLS
 exporter (section 7.5 of RFC 8446); keys travel as SPKI (section 4 of RFC 8410).
 */
module InnerAuth {
  import opened Wire

  type bytes32 = s: seq<byte> | |s| == 32 witness seq(32, _ => 0)

  // ---------- keys ----------

  const SPKI_PREFIX: seq<byte> := [0x30, 0x2A, 0x30, 0x05, 0x06, 0x03, 0x2B, 0x65, 0x70, 0x03, 0x21, 0x00]

  function SpkiDer(key: bytes32): (s: seq<byte>) {
    SPKI_PREFIX + key
  }

  function KeyFromSpki(spki: seq<byte>): (k: Option<bytes32>) {
    if |spki| != 44 || spki[..12] != SPKI_PREFIX then None else Some(spki[12..])
  }

  /** Parsing accepts exactly the encodings, and recovers the key. */
  lemma SpkiRoundTrip(spki: seq<byte>, key: bytes32)
    ensures KeyFromSpki(spki) == Some(key) <==> spki == SpkiDer(key)
  {
    assert SpkiDer(key)[..12] == SPKI_PREFIX && SpkiDer(key)[12..] == key;
    if KeyFromSpki(spki) == Some(key) {
      assert spki == spki[..12] + spki[12..];
    }
  }

  // ---------- transcripts ----------

  const EKM_LABEL: seq<byte> :=
    [0x6E, 0x6F, 0x73, 0x68, 0x2D, 0x69, 0x6E, 0x6E, 0x65, 0x72, 0x2D, 0x61, 0x75, 0x74, 0x68, 0x2D, 0x76, 0x31]
  const LABEL_CLIENT: seq<byte> := EKM_LABEL + [0x00]
  const LABEL_SERVER: seq<byte> := EKM_LABEL + [0x2D, 0x73, 0x65, 0x72, 0x76, 0x65, 0x72, 0x00]

  /** The signed fields; `peer` is the SPKI of the other side's key. */
  datatype Fields = Fields(ekm: bytes32, serverNonce: bytes32, clientNonce: bytes32, peer: seq<byte>)

  function Body(f: Fields): seq<byte> {
    f.ekm + (f.serverNonce + (f.clientNonce + f.peer))
  }

  datatype Digest = Sha256(preimage: seq<byte>)

  function ClientTranscript(f: Fields): Digest {
    Sha256(LABEL_CLIENT + Body(f))
  }

  function ServerTranscript(f: Fields): Digest {
    Sha256(LABEL_SERVER + Body(f))
  }

  lemma BodyIsInjective(f: Fields, g: Fields)
    requires Body(f) == Body(g)
    ensures f == g
  {
    var a, b := Body(f), Body(g);
    assert f.ekm == a[..32] && g.ekm == b[..32];
    assert f.serverNonce == a[32..64] && g.serverNonce == b[32..64];
    assert f.clientNonce == a[64..96] && g.clientNonce == b[64..96];
    assert f.peer == a[96..] && g.peer == b[96..];
  }

  /** Each transcript fixes every field; no client transcript is a server transcript (byte 18 differs). */
  lemma TranscriptsSeparate(f: Fields, g: Fields)
    ensures ClientTranscript(f) == ClientTranscript(g) ==> f == g
    ensures ServerTranscript(f) == ServerTranscript(g) ==> f == g
    ensures ClientTranscript(f) != ServerTranscript(g)
  {
    var c, d := LABEL_CLIENT + Body(f), LABEL_CLIENT + Body(g);
    var s, t := LABEL_SERVER + Body(f), LABEL_SERVER + Body(g);
    assert c[|LABEL_CLIENT|..] == Body(f) && d[|LABEL_CLIENT|..] == Body(g);
    assert s[|LABEL_SERVER|..] == Body(f) && t[|LABEL_SERVER|..] == Body(g);
    if Body(f) == Body(g) {
      BodyIsInjective(f, g);
    }
    assert c[18] == 0x00 && t[18] == 0x2D;
  }

  // ---------- the protocol ----------

  datatype Signature = Signature(key: bytes32, digest: Digest, bytes: seq<byte>)

  predicate Verifies(issued: set<Signature>, spki: seq<byte>, digest: Digest, sig: seq<byte>) {
    var k := KeyFromSpki(spki);
    k.Some? && Signature(k.value, digest, sig) in issued
  }

  datatype Message =
    | Challenge(serverNonce: bytes32, serverSpki: seq<byte>, ekm: bytes32)
    | Response(clientNonce: bytes32, clientSpki: seq<byte>, clientSig: seq<byte>)
    | Complete(serverSig: seq<byte>)
    | Fail
    | Other

  /** A server run; `accepted` holds the client key and nonce once the response has been accepted. */
  datatype ServerRun = ServerRun(ekm: bytes32, nonce: bytes32, host: bytes32, accepted: Option<(bytes32, bytes32)>)

  /** A client run that has signed its response; `known` is the key pinned for the host, if there was one. */
  datatype ClientRun = ClientRun(ekm: bytes32, key: bytes32, known: Option<bytes32>, serverNonce: bytes32,
                                 serverKey: bytes32, clientNonce: bytes32, accepted: bool)

  function ClientFields(c: ClientRun): Fields {
    Fields(c.ekm, c.serverNonce, c.clientNonce, SpkiDer(c.serverKey))
  }

  function ServerFields(s: ServerRun): Fields
    requires s.accepted.Some?
  {
    Fields(s.ekm, s.nonce, s.accepted.value.1, SpkiDer(s.accepted.value.0))
  }

  /** Steps 5 to 8 of the server: every failure is the same `None` (one `InnerAuthFail`). */
  function ServerChecks(issued: set<Signature>, authorized: seq<bytes32>, s: ServerRun, m: Message): Option<(bytes32, bytes32)> {
    match m
    case Response(clientNonce, clientSpki, clientSig) =>
      if |clientSig| != 64 then None
      else if !Verifies(issued, clientSpki, ClientTranscript(Fields(s.ekm, s.nonce, clientNonce, SpkiDer(s.host))), clientSig) then None
      else
        var key := KeyFromSpki(clientSpki);
        if key.None? then None
        else if key.value !in authorized then None
        else Some((key.value, clientNonce))
    case _ => None
  }

  /** Steps 3 to 6 of the client: the server key to continue with. `known` is the pinned key, if any. */
  function ClientChecks(ekm: bytes32, known: Option<bytes32>, userAccepts: bool, m: Message): Option<bytes32> {
    match m
    case Challenge(_, serverSpki, ekmFromServer) =>
      if ekmFromServer != ekm then None
      else
        var key := KeyFromSpki(serverSpki);
        if key.None? then None
        else if known.Some? then (if known.value != key.value then None else key)
        else if userAccepts then key else None
    case _ => None
  }

  /** Step 10 of the client. */
  predicate ClientAccepts(issued: set<Signature>, c: ClientRun, m: Message) {
    && m.Complete? && |m.serverSig| == 64
    && Verifies(issued, SpkiDer(c.serverKey),
                ServerTranscript(Fields(c.ekm, c.serverNonce, c.clientNonce, SpkiDer(c.key))), m.serverSig)
  }

  // ---------- any number of runs over a hostile network ----------

  datatype World = World(servers: map<nat, ServerRun>, clients: map<nat, ClientRun>, issued: set<Signature>)

  const START: World := World(map[], map[], {})

  /** Messages, nonces, keys and signature bytes are whatever the environment supplies. */
  datatype Event =
    | OpenServer(id: nat, ekm: bytes32, nonce: bytes32, host: bytes32)
    | ServerReceives(id: nat, m: Message, sig: seq<byte>)
    | ClientReceives(id: nat, ekm: bytes32, key: bytes32, known: Option<bytes32>, userAccepts: bool,
                     m: Message, nonce: bytes32, sig: seq<byte>)
    | ClientReceivesReply(id: nat, m: Message)
    | OutsiderSigns(s: Signature)

  function Step(honest: set<bytes32>, authorized: seq<bytes32>, w: World, e: Event): World {
    match e
    case OpenServer(id, ekm, nonce, host) =>
      if id in w.servers then w else w.(servers := w.servers[id := ServerRun(ekm, nonce, host, None)])
    case ServerReceives(id, m, sig) =>
      if id !in w.servers || w.servers[id].accepted.Some? then w
      else
        var accepted := ServerChecks(w.issued, authorized, w.servers[id], m);
        if accepted.None? then w
        else
          var s := w.servers[id].(accepted := accepted);
          w.(servers := w.servers[id := s], issued := w.issued + {Signature(s.host, ServerTranscript(ServerFields(s)), sig)})
    case ClientReceives(id, ekm, key, known, userAccepts, m, nonce, sig) =>
      if id in w.clients then w
      else
        var serverKey := ClientChecks(ekm, known, userAccepts, m);
        if serverKey.None? then w
        else
          var c := ClientRun(ekm, key, known, m.serverNonce, serverKey.value, nonce, false);
          w.(clients := w.clients[id := c], issued := w.issued + {Signature(key, ClientTranscript(ClientFields(c)), sig)})
    case ClientReceivesReply(id, m) =>
      if id in w.clients && ClientAccepts(w.issued, w.clients[id], m) then
        w.(clients := w.clients[id := w.clients[id].(accepted := true)])
      else w
    case OutsiderSigns(s) => if s.key in honest then w else w.(issued := w.issued + {s})
  }

  function Run(honest: set<bytes32>, authorized: seq<bytes32>, es: seq<Event>): (w: World)
    decreases |es|
  {
    if es == [] then START else Step(honest, authorized, Run(honest, authorized, es[..|es| - 1]), es[|es| - 1])
  }

  // ---------- the invariant ----------

  predicate ClientSigned(w: World, id: nat, key: bytes32, digest: Digest) {
    id in w.clients && w.clients[id].key == key && digest == ClientTranscript(ClientFields(w.clients[id]))
  }

  predicate ServerSigned(w: World, id: nat, key: bytes32, digest: Digest) {
    && id in w.servers && w.servers[id].accepted.Some? && w.servers[id].host == key
    && digest == ServerTranscript(ServerFields(w.servers[id]))
  }

  /** An honest key signs only inside the protocol. */
  ghost predicate HonestSignaturesHaveRuns(honest: set<bytes32>, w: World) {
    forall s :: s in w.issued && s.key in honest ==>
      (exists id :: ClientSigned(w, id, s.key, s.digest)) || (exists id :: ServerSigned(w, id, s.key, s.digest))
  }

  ghost predicate Issued(w: World, key: bytes32, digest: Digest) {
    exists s :: s in w.issued && s.key == key && s.digest == digest
  }

  ghost predicate ServerSawSignature(w: World, authorized: seq<bytes32>, id: nat)
    requires id in w.servers && w.servers[id].accepted.Some?
  {
    var s := w.servers[id];
    && s.accepted.value.0 in authorized
    && Issued(w, s.accepted.value.0, ClientTranscript(Fields(s.ekm, s.nonce, s.accepted.value.1, SpkiDer(s.host))))
  }

  ghost predicate ClientSawSignature(w: World, id: nat)
    requires id in w.clients
  {
    var c := w.clients[id];
    Issued(w, c.serverKey, ServerTranscript(Fields(c.ekm, c.serverNonce, c.clientNonce, SpkiDer(c.key))))
  }

  ghost predicate Inv(honest: set<bytes32>, authorized: seq<bytes32>, w: World) {
    && HonestSignaturesHaveRuns(honest, w)
    && (forall id :: id in w.servers && w.servers[id].accepted.Some? ==> ServerSawSignature(w, authorized, id))
    && (forall id :: id in w.clients && w.clients[id].accepted ==> ClientSawSignature(w, id))
    && (forall id :: id in w.clients && w.clients[id].known.Some? ==> w.clients[id].known.value == w.clients[id].serverKey)
  }

  lemma AcceptedWasIssued(issued: set<Signature>, authorized: seq<bytes32>, s: ServerRun, m: Message)
    requires ServerChecks(issued, authorized, s, m).Some?
    ensures var (key, nonce) := ServerChecks(issued, authorized, s, m).value;
            && key in authorized
            && Signature(key, ClientTranscript(Fields(s.ekm, s.nonce, nonce, SpkiDer(s.host))), m.clientSig) in issued
  {}

  /** Signatures, runs and acceptances are never taken back. */
  ghost predicate Grows(v: World, w: World) {
    && v.issued <= w.issued
    && (forall id :: id in v.clients ==> id in w.clients && w.clients[id].(accepted := true) == v.clients[id].(accepted := true))
    && (forall id :: id in v.servers && v.servers[id].accepted.Some? ==> id in w.servers && w.servers[id] == v.servers[id])
  }

  lemma GrowthKeepsRuns(v: World, w: World, key: bytes32, digest: Digest)
    requires Grows(v, w)
    ensures (exists id :: ClientSigned(v, id, key, digest)) ==> (exists id :: ClientSigned(w, id, key, digest))
    ensures (exists id :: ServerSigned(v, id, key, digest)) ==> (exists id :: ServerSigned(w, id, key, digest))
    ensures Issued(v, key, digest) ==> Issued(w, key, digest)
  {
    if id :| ClientSigned(v, id, key, digest) {
      assert ClientSigned(w, id, key, digest);
    }
    if id :| ServerSigned(v, id, key, digest) {
      assert ServerSigned(w, id, key, digest);
    }
  }

  lemma SignaturesStayExplained(honest: set<bytes32>, v: World, w: World, added: Signature)
    requires HonestSignaturesHaveRuns(honest, v) && Grows(v, w) && w.issued <= v.issued + {added}
    requires added.key in honest && added in w.issued && added !in v.issued ==>
      (exists id :: ClientSigned(w, id, added.key, added.digest)) || (exists id :: ServerSigned(w, id, added.key, added.digest))
    ensures HonestSignaturesHaveRuns(honest, w)
  {
    forall s | s in w.issued && s.key in honest
      ensures (exists id :: ClientSigned(w, id, s.key, s.digest)) || (exists id :: ServerSigned(w, id, s.key, s.digest))
    {
      GrowthKeepsRuns(v, w, s.key, s.digest);
    }
  }

  lemma EvidenceStays(authorized: seq<bytes32>, v: World, w: World)
    requires Grows(v, w)
    ensures forall id :: id in v.servers && v.servers[id].accepted.Some? && ServerSawSignature(v, authorized, id) ==>
      ServerSawSignature(w, authorized, id)
    ensures forall id :: id in v.clients && ClientSawSignature(v, id) ==> ClientSawSignature(w, id)
  {
    forall id | id in v.servers && v.servers[id].accepted.Some? && ServerSawSignature(v, authorized, id)
      ensures ServerSawSignature(w, authorized, id)
    {
      var s := v.servers[id];
      GrowthKeepsRuns(v, w, s.accepted.value.0, ClientTranscript(Fields(s.ekm, s.nonce, s.accepted.value.1, SpkiDer(s.host))));
    }
    forall id | id in v.clients && ClientSawSignature(v, id)
      ensures ClientSawSignature(w, id)
    {
      var c := v.clients[id];
      GrowthKeepsRuns(v, w, c.serverKey, ServerTranscript(Fields(c.ekm, c.serverNonce, c.clientNonce, SpkiDer(c.key))));
    }
  }

  lemma ServerStepKeepsInv(honest: set<bytes32>, authorized: seq<bytes32>, v: World, id: nat, m: Message, sig: seq<byte>)
    requires Inv(honest, authorized, v)
    ensures Inv(honest, authorized, Step(honest, authorized, v, ServerReceives(id, m, sig)))
  {
    var w := Step(honest, authorized, v, ServerReceives(id, m, sig));
    if w != v {
      AcceptedWasIssued(v.issued, authorized, v.servers[id], m);
      var s := w.servers[id];
      assert ServerSigned(w, id, s.host, ServerTranscript(ServerFields(s)));
      SignaturesStayExplained(honest, v, w, Signature(s.host, ServerTranscript(ServerFields(s)), sig));
      EvidenceStays(authorized, v, w);
      assert ServerSawSignature(w, authorized, id);
    }
  }

  lemma ClientStepKeepsInv(honest: set<bytes32>, authorized: seq<bytes32>, v: World, e: Event)
    requires Inv(honest, authorized, v) && e.ClientReceives?
    ensures Inv(honest, authorized, Step(honest, authorized, v, e))
  {
    var w := Step(honest, authorized, v, e);
    if w != v {
      var c := w.clients[e.id];
      assert ClientSigned(w, e.id, c.key, ClientTranscript(ClientFields(c)));
      SignaturesStayExplained(honest, v, w, Signature(c.key, ClientTranscript(ClientFields(c)), e.sig));
      EvidenceStays(authorized, v, w);
    }
  }

  lemma ReplyStepKeepsInv(honest: set<bytes32>, authorized: seq<bytes32>, v: World, id: nat, m: Message)
    requires Inv(honest, authorized, v)
    ensures Inv(honest, authorized, Step(honest, authorized, v, ClientReceivesReply(id, m)))
  {
    var w := Step(honest, authorized, v, ClientReceivesReply(id, m));
    if w != v {
      var c := v.clients[id];
      SpkiRoundTrip(SpkiDer(c.serverKey), c.serverKey);
      var d := ServerTranscript(Fields(c.ekm, c.serverNonce, c.clientNonce, SpkiDer(c.key)));
      assert Signature(c.serverKey, d, m.serverSig) in v.issued;
      SignaturesStayExplained(honest, v, w, Signature(c.serverKey, d, m.serverSig));
      EvidenceStays(authorized, v, w);
      assert ClientSawSignature(w, id);
    }
  }

  lemma OtherStepKeepsInv(honest: set<bytes32>, authorized: seq<bytes32>, v: World, e: Event)
    requires Inv(honest, authorized, v) && (e.OpenServer? || e.OutsiderSigns?)
    ensures Inv(honest, authorized, Step(honest, authorized, v, e))
  {
    var w := Step(honest, authorized, v, e);
    var added := if e.OutsiderSigns? then e.s else Signature(seq(32, _ => 0), Sha256([]), []);
    SignaturesStayExplained(honest, v, w, added);
    EvidenceStays(authorized, v, w);
  }

  lemma {:induction false} RunKeepsInv(honest: set<bytes32>, authorized: seq<bytes32>, es: seq<Event>)
    ensures Inv(honest, authorized, Run(honest, authorized, es))
    decreases |es|
  {
    if es != [] {
      var v := Run(honest, authorized, es[..|es| - 1]);
      var e := es[|es| - 1];
      RunKeepsInv(honest, authorized, es[..|es| - 1]);
      match e
      case ServerReceives(id, m, sig) => ServerStepKeepsInv(honest, authorized, v, id, m, sig);
      case ClientReceives(_, _, _, _, _, _, _, _) => ClientStepKeepsInv(honest, authorized, v, e);
      case ClientReceivesReply(id, m) => ReplyStepKeepsInv(honest, authorized, v, id, m);
      case _ => OtherStepKeepsInv(honest, authorized, v, e);
    }
  }

  // ---------- agreement ----------

  /** Both sides signed for the same TLS session, nonces, client key and host key. */
  predicate Agree(c: ClientRun, s: ServerRun) {
    && s.accepted.Some?
    && c.ekm == s.ekm && c.serverNonce == s.nonce && c.clientNonce == s.accepted.value.1
    && c.key == s.accepted.value.0 && c.serverKey == s.host
  }

  lemma SpkiInjective(a: bytes32, b: bytes32)
    requires SpkiDer(a) == SpkiDer(b)
    ensures a == b
  {
    SpkiRoundTrip(SpkiDer(a), a);
    SpkiRoundTrip(SpkiDer(a), b);
  }

  /**
   If a server accepts an honest client key, that key is authorized, and its owner ran the client
   against this very TLS session, these nonces and this host key, even if the key is also a host key.
   */
  lemma ServerAcceptImpliesClientRun(honest: set<bytes32>, authorized: seq<bytes32>, es: seq<Event>, id: nat)
    requires var w := Run(honest, authorized, es);
             id in w.servers && w.servers[id].accepted.Some? && w.servers[id].accepted.value.0 in honest
    ensures var w := Run(honest, authorized, es);
            && w.servers[id].accepted.value.0 in authorized
            && exists j :: j in w.clients && Agree(w.clients[j], w.servers[id])
  {
    var w := Run(honest, authorized, es);
    RunKeepsInv(honest, authorized, es);
    assert ServerSawSignature(w, authorized, id);
    var s := w.servers[id];
    var f := Fields(s.ekm, s.nonce, s.accepted.value.1, SpkiDer(s.host));
    var key := s.accepted.value.0;
    if j :| ClientSigned(w, j, key, ClientTranscript(f)) {
      TranscriptsSeparate(f, ClientFields(w.clients[j]));
      SpkiInjective(s.host, w.clients[j].serverKey);
      assert Agree(w.clients[j], s);
    } else {
      var j :| ServerSigned(w, j, key, ClientTranscript(f));
      TranscriptsSeparate(f, ServerFields(w.servers[j]));
      assert false;
    }
  }

  /**
   If a client accepts an honest host key, that key is the pinned one if there was a pin, and a server
   with that key accepted this client in the same session.
   */
  lemma ClientAcceptImpliesServerRun(honest: set<bytes32>, authorized: seq<bytes32>, es: seq<Event>, id: nat)
    requires var w := Run(honest, authorized, es);
             id in w.clients && w.clients[id].accepted && w.clients[id].serverKey in honest
    ensures var w := Run(honest, authorized, es);
            && (w.clients[id].known.Some? ==> w.clients[id].known.value == w.clients[id].serverKey)
            && exists j :: j in w.servers && Agree(w.clients[id], w.servers[j])
  {
    var w := Run(honest, authorized, es);
    RunKeepsInv(honest, authorized, es);
    assert ClientSawSignature(w, id);
    var c := w.clients[id];
    var f := Fields(c.ekm, c.serverNonce, c.clientNonce, SpkiDer(c.key));
    if j :| ServerSigned(w, j, c.serverKey, ServerTranscript(f)) {
      TranscriptsSeparate(f, ServerFields(w.servers[j]));
      SpkiInjective(c.key, w.servers[j].accepted.value.0);
      assert Agree(c, w.servers[j]);
    } else {
      var j :| ClientSigned(w, j, c.serverKey, ServerTranscript(f));
      TranscriptsSeparate(ClientFields(w.clients[j]), f);
      assert false;
    }
  }

  // ---------- who is let in ----------

  /** What a client signs, byte for byte: label, exporter value, both nonces, and the host key as SPKI. */
  function ClientPreimage(ekm: bytes32, serverNonce: bytes32, clientNonce: bytes32, host: bytes32): seq<byte> {
    (EKM_LABEL + [0x00]) + ekm + serverNonce + clientNonce + (SPKI_PREFIX + host)
  }

  /** And a server: its own label, and the client key. */
  function ServerPreimage(ekm: bytes32, serverNonce: bytes32, clientNonce: bytes32, client: bytes32): seq<byte> {
    (EKM_LABEL + [0x2D, 0x73, 0x65, 0x72, 0x76, 0x65, 0x72, 0x00]) + ekm + serverNonce + clientNonce + (SPKI_PREFIX + client)
  }

  lemma PreimagesAreSigned(ekm: bytes32, serverNonce: bytes32, clientNonce: bytes32, key: bytes32)
    ensures ClientTranscript(Fields(ekm, serverNonce, clientNonce, SpkiDer(key))) == Sha256(ClientPreimage(ekm, serverNonce, clientNonce, key))
    ensures ServerTranscript(Fields(ekm, serverNonce, clientNonce, SpkiDer(key))) == Sha256(ServerPreimage(ekm, serverNonce, clientNonce, key))
  {
    var f := Fields(ekm, serverNonce, clientNonce, SpkiDer(key));
    assert LABEL_CLIENT + Body(f) == ClientPreimage(ekm, serverNonce, clientNonce, key);
    assert LABEL_SERVER + Body(f) == ServerPreimage(ekm, serverNonce, clientNonce, key);
  }

  /**
   A waiting server accepts a message if and only if it is a response with a signature of 64 bytes
   that the owner of an authorized key issued over this session, these nonces and this host key.
   */
  lemma ServerAcceptsIff(honest: set<bytes32>, authorized: seq<bytes32>, w: World, id: nat, m: Message, sig: seq<byte>, key: bytes32)
    requires id in w.servers && w.servers[id].accepted.None?
    ensures var s := w.servers[id];
            var t := Step(honest, authorized, w, ServerReceives(id, m, sig)).servers[id];
            && (t.accepted.Some? && t.accepted.value.0 == key <==>
                && m.Response? && |m.clientSig| == 64 && m.clientSpki == SpkiDer(key) && key in authorized
                && Signature(key, Sha256(ClientPreimage(s.ekm, s.nonce, m.clientNonce, s.host)), m.clientSig) in w.issued)
            && t == s.(accepted := t.accepted)
            && (t.accepted.Some? ==> t.accepted.value.1 == m.clientNonce)
  {
    if m.Response? {
      SpkiRoundTrip(m.clientSpki, key);
      PreimagesAreSigned(w.servers[id].ekm, w.servers[id].nonce, m.clientNonce, w.servers[id].host);
    }
  }

  /**
   A client answers a message if and only if it is a challenge for its own TLS session whose host
   key is the pinned one or, without a pin, one that the user accepts. Otherwise nothing is signed.
   */
  lemma ClientAnswersIff(honest: set<bytes32>, authorized: seq<bytes32>, w: World, e: Event, host: bytes32)
    requires e.ClientReceives? && e.id !in w.clients
    ensures var t := Step(honest, authorized, w, e);
            && (e.id in t.clients && t.clients[e.id].serverKey == host <==>
                && e.m.Challenge? && e.m.ekm == e.ekm && e.m.serverSpki == SpkiDer(host)
                && (e.known == Some(host) || (e.known == None && e.userAccepts)))
            && (e.id !in t.clients ==> t == w)
            && (e.id in t.clients ==>
                && t.clients[e.id] == ClientRun(e.ekm, e.key, e.known, e.m.serverNonce, t.clients[e.id].serverKey, e.nonce, false)
                && t.issued == w.issued + {Signature(e.key, Sha256(ClientPreimage(e.ekm, e.m.serverNonce, e.nonce, t.clients[e.id].serverKey)), e.sig)})
  {
    if e.m.Challenge? {
      SpkiRoundTrip(e.m.serverSpki, host);
      var k := ClientChecks(e.ekm, e.known, e.userAccepts, e.m);
      if k.Some? {
        PreimagesAreSigned(e.ekm, e.m.serverNonce, e.nonce, k.value);
      }
    }
  }

  /** A client that waits for the reply accepts it if and only if it completes with 64 bytes that the host key issued over the same fields. */
  lemma ClientAcceptsIff(honest: set<bytes32>, authorized: seq<bytes32>, w: World, id: nat, m: Message)
    requires id in w.clients && !w.clients[id].accepted
    ensures var c := w.clients[id];
            var t := Step(honest, authorized, w, ClientReceivesReply(id, m)).clients[id];
            && (t.accepted <==>
                && m.Complete? && |m.serverSig| == 64
                && Signature(c.serverKey, Sha256(ServerPreimage(c.ekm, c.serverNonce, c.clientNonce, c.key)), m.serverSig) in w.issued)
            && t == c.(accepted := t.accepted)
  {
    var c := w.clients[id];
    SpkiRoundTrip(SpkiDer(c.serverKey), c.serverKey);
    PreimagesAreSigned(c.ekm, c.serverNonce, c.clientNonce, c.key);
  }

  // ---------- an honest handshake completes ----------

  /** One handshake over an honest network: open, challenge, response, completion. */
  datatype Handshake = Handshake(server: nat, client: nat, ekm: bytes32, serverNonce: bytes32, clientNonce: bytes32,
                                 host: bytes32, key: bytes32, known: Option<bytes32>, userAccepts: bool,
                                 clientSig: seq<byte>, serverSig: seq<byte>)

  function Exchange(h: Handshake): seq<Event> {
    [OpenServer(h.server, h.ekm, h.serverNonce, h.host),
     ClientReceives(h.client, h.ekm, h.key, h.known, h.userAccepts, Challenge(h.serverNonce, SpkiDer(h.host), h.ekm), h.clientNonce, h.clientSig),
     ServerReceives(h.server, Response(h.clientNonce, SpkiDer(h.key), h.clientSig), h.serverSig),
     ClientReceivesReply(h.client, Complete(h.serverSig))]
  }

  lemma RunSnoc(honest: set<bytes32>, authorized: seq<bytes32>, es: seq<Event>, e: Event)
    ensures Run(honest, authorized, es + [e]) == Step(honest, authorized, Run(honest, authorized, es), e)
  {
    assert (es + [e])[..|es|] == es;
  }

  lemma RunExchange(honest: set<bytes32>, authorized: seq<bytes32>, es: seq<Event>, h: Handshake)
    ensures var x := Exchange(h);
            Run(honest, authorized, es + x) ==
            Step(honest, authorized, Step(honest, authorized, Step(honest, authorized, Step(honest, authorized,
              Run(honest, authorized, es), x[0]), x[1]), x[2]), x[3])
  {
    var x := Exchange(h);
    RunSnoc(honest, authorized, es, x[0]);
    RunSnoc(honest, authorized, es + [x[0]], x[1]);
    RunSnoc(honest, authorized, es + [x[0]] + [x[1]], x[2]);
    RunSnoc(honest, authorized, es + [x[0]] + [x[1]] + [x[2]], x[3]);
    assert es + [x[0]] + [x[1]] + [x[2]] + [x[3]] == es + x;
  }

  /** The user agrees to the host key, by a pin or at the prompt, and signatures have 64 bytes. */
  predicate Willing(h: Handshake) {
    && (h.known == Some(h.host) || (h.known == None && h.userAccepts))
    && |h.clientSig| == 64 && |h.serverSig| == 64
  }

  /**
   Completeness. After any run, between a new server and a new client of the same TLS session, and
   whatever the keys and nonces: the server ends up having accepted this client if and only if its
   key is authorized, and then the client has accepted too and both agree on every field.
   */
  lemma HonestHandshakeCompletes(honest: set<bytes32>, authorized: seq<bytes32>, es: seq<Event>, h: Handshake)
    requires h.server !in Run(honest, authorized, es).servers && h.client !in Run(honest, authorized, es).clients
    requires Willing(h)
    ensures var w := Run(honest, authorized, es + Exchange(h));
            && h.server in w.servers && h.client in w.clients
            && (w.servers[h.server].accepted.Some? <==> h.key in authorized)
            && (h.key in authorized ==> w.clients[h.client].accepted && Agree(w.clients[h.client], w.servers[h.server]))
  {
    var x := Exchange(h);
    RunExchange(honest, authorized, es, h);
    var w1 := Step(honest, authorized, Run(honest, authorized, es), x[0]);
    var w2 := Step(honest, authorized, w1, x[1]);
    var w3 := Step(honest, authorized, w2, x[2]);
    ClientAnswersIff(honest, authorized, w1, x[1], h.host);
    ServerAcceptsIff(honest, authorized, w2, h.server, x[2].m, h.serverSig, h.key);
    SpkiRoundTrip(SpkiDer(h.key), h.key);
    PreimagesAreSigned(h.ekm, h.serverNonce, h.clientNonce, h.key);
    ClientAcceptsIff(honest, authorized, w3, h.client, x[3].m);
  }
}
