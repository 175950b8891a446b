/** `createLanServerCoordinator`: one pairing window over the stored list of authorized clients. */
module Coordinator {
  import opened Options
  import opened Json
  import opened ReplayGuard
  import opened LanAuth

  const PAIRING_TTL_MS := 5 * 60_000
  const MAX_CLIENTS := 128
  const CLOCK_SKEW_SECONDS := 60

  /** "POST" */
  const POST: Text := [0x50, 0x4F, 0x53, 0x54]

  /** "/v1/pair/ack" */
  const ACK_PATH: Text := [0x2F, 0x76, 0x31, 0x2F, 0x70, 0x61, 0x69, 0x72, 0x2F, 0x61, 0x63, 0x6B]

  datatype Status = Pending | Active | Revoked

  datatype Capability = Read | Write

  datatype Client = Client(secret: Text, read: bool, write: bool, status: Status, pairingId: Option<Text>,
                           createdAt: int, updatedAt: int)

  /** The stored list, by client id: ids are unique in it. */
  type Clients = map<Text, Client>

  /** `octets` is the host's lenient decoder of base64url. */
  datatype Window = Window(capability: Text, expiresAt: int, allowWrite: bool, octets: Text -> seq<nat>)

  datatype Config = Config(window: Option<Window>, mac: Mac)

  datatype Reply = Reply(pairingId: Text, secret: Text, read: bool, write: bool, expiresAt: int)

  datatype Authenticated = Authenticated(clientId: Text, capabilities: seq<Capability>)

  predicate FreshPending(updatedAt: int, nowMs: int) { 0 <= nowMs - updatedAt < PAIRING_TTL_MS }

  /** The offered capability is 43 token characters; it and the expected one decode to the same 32 octets. */
  predicate CapabilityMatches(actual: Text, window: Window)
  {
    && TokenText(actual, 43)
    && |window.octets(actual)| == 32 && |window.octets(window.capability)| == 32
    && window.octets(actual) == window.octets(window.capability)
  }

  // ---- The operations as functions of the whole state ----

  datatype State = State(clients: Clients, reservedClientId: Option<Text>, reservedPairingId: Option<Text>,
                         consumed: bool, live: Live)

  /** What one `pair` call brings along: the parsed body (`None` unless it is exactly two strings), two clock
      readings, the random tokens it would use, and whether the state file can be rewritten. */
  datatype Pairing = Pairing(body: Option<(Text, Text)>, nowMs: int, laterMs: int,
                             newSecret: Text, newPairingId: Text, disk: bool)

  predicate PairAdmitted(s: State, p: Pairing, window: Option<Window>)
  {
    && window.Some? && !s.consumed && p.nowMs < window.value.expiresAt
    && p.body.Some? && TokenText(p.body.value.0, 43)
    && CapabilityMatches(p.body.value.1, window.value)
    && (s.reservedClientId.None? || s.reservedClientId == Some(p.body.value.0))
  }

  function DropStale(clients: Clients, keep: Text, nowMs: int): Clients
  {
    map c | c in clients && (!clients[c].status.Pending? || FreshPending(clients[c].updatedAt, nowMs) || c == keep) ::
      clients[c]
  }

  predicate Resumable(clients: Clients, id: Text, nowMs: int)
  {
    && id in clients && clients[id].status.Pending? && clients[id].pairingId.Some? && clients[id].pairingId.value != []
    && FreshPending(clients[id].updatedAt, nowMs)
  }

  function PairedClient(clients: Clients, p: Pairing, window: Window): Client
    requires p.body.Some?
  {
    var id := p.body.value.0;
    if Resumable(clients, id, p.laterMs) then clients[id]
    else Client(p.newSecret, true, window.allowWrite, Pending, Some(p.newPairingId), p.laterMs, p.laterMs)
  }

  function PairedClients(clients: Clients, p: Pairing, window: Window): Clients
    requires p.body.Some?
  {
    DropStale(clients, p.body.value.0, p.laterMs)[p.body.value.0 := PairedClient(clients, p, window)]
  }

  /** The rewritten file passes the schema check and reaches the disk. */
  predicate Storable(clients: Clients, disk: bool)
  {
    disk && |clients| <= MAX_CLIENTS && forall c :: c in clients ==> SecretText(c) && SecretText(clients[c].secret)
  }

  predicate PairStored(s: State, p: Pairing, window: Option<Window>)
  {
    PairAdmitted(s, p, window) && Storable(PairedClients(s.clients, p, window.value), p.disk)
  }

  function AfterPair(s: State, p: Pairing, window: Option<Window>): State
  {
    if !PairAdmitted(s, p, window) then s
    else if !PairStored(s, p, window) then s.(reservedClientId := Some(p.body.value.0))
    else s.(clients := PairedClients(s.clients, p, window.value),
            reservedClientId := Some(p.body.value.0),
            reservedPairingId := PairedClient(s.clients, p, window.value).pairingId)
  }

  datatype Acknowledgement = Acknowledgement(pairingId: Text, clientId: Text, nowMs: int, disk: bool)

  predicate AckAdmitted(s: State, a: Acknowledgement, window: Option<Window>)
  {
    && window.Some? && !s.consumed && s.reservedClientId == Some(a.clientId) && a.nowMs < window.value.expiresAt
    && a.clientId in s.clients && s.clients[a.clientId].status.Pending?
    && s.clients[a.clientId].pairingId == Some(a.pairingId)
    && FreshPending(s.clients[a.clientId].updatedAt, a.nowMs)
  }

  function Activated(clients: Clients, id: Text, nowMs: int): Clients
    requires id in clients
  {
    clients[id := clients[id].(status := Active, pairingId := None, updatedAt := nowMs)]
  }

  /** Active, without its pairing id, and otherwise the client it was. */
  predicate IsActivated(after: Client, before: Client, nowMs: int)
  {
    && after.status == Active && after.pairingId == None && after.updatedAt == nowMs
    && after.secret == before.secret && after.read == before.read && after.write == before.write
    && after.createdAt == before.createdAt
  }

  predicate AckSucceeds(s: State, a: Acknowledgement, window: Option<Window>)
  {
    AckAdmitted(s, a, window) && Storable(Activated(s.clients, a.clientId, a.nowMs), a.disk)
  }

  function AfterAck(s: State, a: Acknowledgement, window: Option<Window>): State
  {
    if AckSucceeds(s, a, window)
    then State(Activated(s.clients, a.clientId, a.nowMs), None, None, true, s.live)
    else s
  }

  function WithoutPending(clients: Clients, id: Text, pairingId: Text): Clients
  {
    map c | c in clients && (c != id || !clients[c].status.Pending? || clients[c].pairingId != Some(pairingId)) :: clients[c]
  }

  predicate DiscardAdmitted(s: State)
  {
    && s.reservedClientId.Some? && s.reservedClientId.value != []
    && s.reservedPairingId.Some? && s.reservedPairingId.value != [] && !s.consumed
  }

  function AfterDiscard(s: State, disk: bool): State
  {
    if !DiscardAdmitted(s) then s
    else
      var left := WithoutPending(s.clients, s.reservedClientId.value, s.reservedPairingId.value);
      if Storable(left, disk) then s.(clients := left, reservedClientId := None, reservedPairingId := None) else s
  }

  datatype Attempt = Attempt(request: Request, signature: Text, allowPending: bool, nowMs: int)

  predicate PendingAllowed(s: State, a: Attempt, window: Option<Window>)
  {
    && a.request.clientId in s.clients
    && a.allowPending && a.request.verb == POST && a.request.pathname == ACK_PATH
    && window.Some? && !s.consumed && s.reservedClientId == Some(a.request.clientId)
    && s.clients[a.request.clientId].pairingId.Some?
    && a.nowMs < window.value.expiresAt
    && FreshPending(s.clients[a.request.clientId].updatedAt, a.nowMs)
  }

  predicate MayAuthenticate(s: State, a: Attempt, window: Option<Window>)
  {
    && a.request.clientId in s.clients
    && !s.clients[a.request.clientId].status.Revoked?
    && (s.clients[a.request.clientId].status.Pending? ==> PendingAllowed(s, a, window))
  }

  const LIMITS := Limits(5 * 60_000, 2048, 128)

  function Setting(config: Config): Setup { Setup(LIMITS, CLOCK_SKEW_SECONDS, config.mac) }

  /** The request as the replay guard sees it; one that is refused earlier is as good as unsigned. */
  function SeenBy(s: State, a: Attempt, config: Config): Event
  {
    if MayAuthenticate(s, a, config.window)
    then Verify(a.request, a.signature, s.clients[a.request.clientId].secret, a.nowMs)
    else Verify(a.request, [], [], a.nowMs)
  }

  predicate AuthSucceeds(s: State, a: Attempt, config: Config)
  {
    && MayAuthenticate(s, a, config.window)
    && Checked(SeenBy(s, a, config), Setting(config))
    && Admits(Alive(s.live, a.nowMs), a.request.clientId, a.request.nonce, LIMITS)
  }

  function Granted(c: Client): seq<Capability>
  {
    (if c.read then [Read] else []) + (if c.write then [Write] else [])
  }

  function AfterAuth(s: State, a: Attempt, config: Config): State
  {
    s.(live := After(s.live, SeenBy(s, a, config), Setting(config)))
  }

  class ServerCoordinator {
    const config: Config
    const replayGuard: NonceReplayGuard
    var authorizedClients: Clients
    var reservedClientId: Option<Text>
    var reservedPairingId: Option<Text>
    var consumed: bool

    ghost predicate Valid()
      reads this, replayGuard
    {
      replayGuard.Valid() && replayGuard.limits == LIMITS
    }

    ghost function Abstract(): State
      reads this, replayGuard
    {
      State(authorizedClients, reservedClientId, reservedPairingId, consumed, replayGuard.contents)
    }

    constructor (config: Config, stored: Clients)
      ensures Valid() && fresh(replayGuard)
      ensures this.config == config && Abstract() == State(stored, None, None, false, map[])
    {
      var guard := new NonceReplayGuard(LIMITS);
      this.config := config;
      this.replayGuard := guard;
      this.authorizedClients := stored;
      this.reservedClientId := None;
      this.reservedPairingId := None;
      this.consumed := false;
    }

    method Pair(p: Pairing) returns (reply: Option<Reply>)
      requires Valid()
      modifies this
      ensures Valid() && Abstract() == AfterPair(old(Abstract()), p, config.window)
      ensures reply.Some? <==> PairStored(old(Abstract()), p, config.window)
      ensures reply.Some? ==>
        var id := p.body.value.0;
        && id in authorizedClients && reservedClientId == Some(id) && reservedPairingId == Some(reply.value.pairingId)
        && authorizedClients[id].status.Pending? && authorizedClients[id].pairingId == Some(reply.value.pairingId)
        && authorizedClients[id].secret == reply.value.secret
        && authorizedClients[id].read == reply.value.read && authorizedClients[id].write == reply.value.write
        && reply.value.expiresAt == config.window.value.expiresAt
    {
      hide TokenText, CapabilityMatches, Storable, Represents;
      var window :- config.window;
      if consumed || p.nowMs >= window.expiresAt || p.body.None? {
        return None;
      }
      var (clientId, capability) := p.body.value;
      if !TokenText(clientId, 43) || !CapabilityMatches(capability, window) {
        return None;
      }
      if reservedClientId.Some? && reservedClientId.value != clientId {
        return None;
      }
      reservedClientId := Some(clientId);
      var kept := DropStale(authorizedClients, clientId, p.laterMs);
      var client;
      if Resumable(kept, clientId, p.laterMs) {
        client := kept[clientId];
      } else {
        client := Client(p.newSecret, true, window.allowWrite, Pending, Some(p.newPairingId), p.laterMs, p.laterMs);
        kept := kept[clientId := client];
      }
      assert kept == PairedClients(old(authorizedClients), p, window);
      if !Storable(kept, p.disk) {
        return None;
      }
      authorizedClients := kept;
      reservedPairingId := client.pairingId;
      return Some(Reply(client.pairingId.value, client.secret, client.read, client.write, window.expiresAt));
    }

    method Authenticate(a: Attempt) returns (authenticated: Option<Authenticated>)
      requires Valid()
      modifies replayGuard
      ensures Valid() && Abstract() == AfterAuth(old(Abstract()), a, config)
      ensures authenticated.Some? <==> AuthSucceeds(old(Abstract()), a, config)
      ensures authenticated.Some? ==>
        && authenticated.value.clientId == a.request.clientId
        && var client := authorizedClients[a.request.clientId];
        authenticated.value.capabilities == (if client.read then [Read] else []) + (if client.write then [Write] else [])
    {
      hide Signed, InWindow, HexText, Represents, Alive, Admits, Consumed;
      UnsignedIsUnchecked(a, config);
      if a.request.clientId !in authorizedClients {
        return None;
      }
      var client := authorizedClients[a.request.clientId];
      if client.status.Revoked? {
        return None;
      }
      if client.status.Pending? {
        if !(a.allowPending && a.request.verb == POST && a.request.pathname == ACK_PATH && config.window.Some?
             && !consumed && reservedClientId == Some(a.request.clientId) && client.pairingId.Some?
             && a.nowMs < config.window.value.expiresAt && FreshPending(client.updatedAt, a.nowMs)) {
          return None;
        }
      }
      var verified := VerifyAuthHeaders(a.request, a.signature, client.secret, a.nowMs, CLOCK_SKEW_SECONDS, config.mac,
                                        replayGuard);
      if !verified {
        return None;
      }
      return Some(Authenticated(a.request.clientId, Granted(client)));
    }

    method AcknowledgePairing(a: Acknowledgement) returns (acknowledged: bool)
      requires Valid()
      modifies this
      ensures Valid() && Abstract() == AfterAck(old(Abstract()), a, config.window)
      ensures acknowledged == AckSucceeds(old(Abstract()), a, config.window)
      ensures acknowledged ==>
        && authorizedClients.Keys == old(authorizedClients.Keys) && a.clientId in authorizedClients
        && IsActivated(authorizedClients[a.clientId], old(authorizedClients[a.clientId]), a.nowMs)
        && forall c :: c in authorizedClients && c != a.clientId ==> authorizedClients[c] == old(authorizedClients[c])
      ensures !acknowledged ==> Abstract() == old(Abstract())
    {
      hide Storable, Represents;
      if config.window.None? || consumed || reservedClientId != Some(a.clientId) || a.nowMs >= config.window.value.expiresAt {
        return false;
      }
      if a.clientId !in authorizedClients {
        return false;
      }
      var client := authorizedClients[a.clientId];
      if !client.status.Pending? || client.pairingId != Some(a.pairingId) || !FreshPending(client.updatedAt, a.nowMs) {
        return false;
      }
      var updated := authorizedClients[a.clientId := client.(status := Active, pairingId := None, updatedAt := a.nowMs)];
      if !Storable(updated, a.disk) {
        return false;
      }
      authorizedClients := updated;
      reservedClientId := None;
      reservedPairingId := None;
      consumed := true;
      return true;
    }

    method DiscardPendingPairing(disk: bool)
      requires Valid()
      modifies this
      ensures Valid() && Abstract() == AfterDiscard(old(Abstract()), disk)
    {
      hide Storable, Represents;
      if reservedClientId.None? || reservedClientId.value == [] || reservedPairingId.None?
         || reservedPairingId.value == [] || consumed {
        return;
      }
      var left := WithoutPending(authorizedClients, reservedClientId.value, reservedPairingId.value);
      if Storable(left, disk) {
        authorizedClients := left;
        reservedClientId := None;
        reservedPairingId := None;
      }
    }
  }

  lemma UnsignedIsUnchecked(a: Attempt, config: Config)
    ensures !Checked(Verify(a.request, [], [], a.nowMs), Setting(config))
  {
    assert !HexText([]);
  }
}
