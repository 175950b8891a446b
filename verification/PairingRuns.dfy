/** Whole runs of one server coordinator: what a pairing window can and cannot lead to. */
module PairingRuns {
  import opened Options
  import opened Json
  import opened ReplayGuard
  import opened LanAuth
  import opened Coordinator

  /** Operations are atomic; `Elsewhere` is another process rewriting the stored clients. */
  datatype Op =
    | Pair(pairing: Pairing)
    | Authenticate(attempt: Attempt)
    | Acknowledge(ack: Acknowledgement)
    | Discard(disk: bool)
    | Elsewhere(clients: Clients)

  function Next(s: State, op: Op, config: Config): State
  {
    match op
    case Pair(p) => AfterPair(s, p, config.window)
    case Authenticate(a) => AfterAuth(s, a, config)
    case Acknowledge(a) => AfterAck(s, a, config.window)
    case Discard(disk) => AfterDiscard(s, disk)
    case Elsewhere(clients) => s.(clients := clients)
  }

  /** A run of a server that was started over some stored clients. */
  datatype Run = Run(ops: seq<Op>, stored: Clients, config: Config)

  function At(run: Run, k: nat): State
    requires k <= |run.ops|
  {
    if k == 0 then State(run.stored, None, None, false, map[]) else Next(At(run, k - 1), run.ops[k - 1], run.config)
  }

  predicate Pairs(run: Run, k: nat)
    requires k < |run.ops|
  {
    run.ops[k].Pair? && PairStored(At(run, k), run.ops[k].pairing, run.config.window)
  }

  predicate Acks(run: Run, k: nat)
    requires k < |run.ops|
  {
    run.ops[k].Acknowledge? && AckSucceeds(At(run, k), run.ops[k].ack, run.config.window)
  }

  predicate Auths(run: Run, k: nat)
    requires k < |run.ops|
  {
    run.ops[k].Authenticate? && AuthSucceeds(At(run, k), run.ops[k].attempt, run.config)
  }

  // ---- One activation ----

  lemma {:induction false} ConsumedForGood(run: Run, i: nat, j: nat)
    requires i <= j <= |run.ops| && At(run, i).consumed
    ensures At(run, j).consumed
    decreases j
  {
    hide Storable, TokenText, CapabilityMatches, Signed, InWindow;
    if i < j {
      ConsumedForGood(run, i, j - 1);
    }
  }

  /** After one acknowledgement nothing is acknowledged or paired again, and no pending client gets in. */
  lemma OneActivation(run: Run, i: nat, j: nat)
    requires i < j < |run.ops| && Acks(run, i)
    ensures !Acks(run, j) && !Pairs(run, j)
    ensures Auths(run, j) ==> At(run, j).clients[run.ops[j].attempt.request.clientId].status.Active?
  {
    hide Storable, TokenText, CapabilityMatches, Signed, InWindow;
    assert At(run, i + 1).consumed;
    hide At;
    ConsumedForGood(run, i + 1, j);
  }

  /** A pending client gets in only to acknowledge, only while it holds the window, only before expiry. */
  lemma PendingOnlyAcknowledges(run: Run, k: nat)
    requires k < |run.ops| && Auths(run, k)
    ensures var id := run.ops[k].attempt.request.clientId;
            var client := At(run, k).clients[id];
            || client.status.Active?
            || (client.status.Pending? && run.ops[k].attempt.request.verb == Ascii("POST")
                && run.ops[k].attempt.request.pathname == Ascii("/v1/pair/ack")
                && At(run, k).reservedClientId == Some(id) && !At(run, k).consumed
                && run.ops[k].attempt.nowMs < run.config.window.value.expiresAt)
  {
    hide At, Signed, InWindow, Admits, Ascii;
    RouteTexts();
  }

  lemma RouteTexts()
    ensures POST == Ascii("POST") && ACK_PATH == Ascii("/v1/pair/ack")
  {
    assert "POST"[0] == 'P' && "POST"[1] == 'O' && "POST"[2] == 'S' && "POST"[3] == 'T';
  }

  // ---- Only the handed-out pairing id activates ----

  predicate HandedOut(run: Run, k: nat, id: Text, pairingId: Text)
    requires k <= |run.ops|
  {
    exists i :: 0 <= i < k && Pairs(run, i) && run.ops[i].pairing.body.value.0 == id
      && PairedClient(At(run, i).clients, run.ops[i].pairing, run.config.window.value).pairingId == Some(pairingId)
  }

  /** The coordinator is the only writer of the stored clients. */
  predicate Alone(run: Run) { forall i :: 0 <= i < |run.ops| ==> !run.ops[i].Elsewhere? }

  ghost predicate Promised(run: Run, k: nat)
    requires k <= |run.ops|
  {
    var s := At(run, k);
    && (s.reservedPairingId.Some? ==> s.reservedClientId.Some?)
    && (s.reservedClientId.Some? && s.reservedPairingId.Some? ==>
          && HandedOut(run, k, s.reservedClientId.value, s.reservedPairingId.value)
          && (s.reservedClientId.value in s.clients && s.clients[s.reservedClientId.value].status.Pending? ==>
                s.clients[s.reservedClientId.value].pairingId == s.reservedPairingId))
  }

  lemma StillHandedOut(run: Run, k: nat, n: nat, id: Text, pairingId: Text)
    requires k <= n <= |run.ops| && HandedOut(run, k, id, pairingId)
    ensures HandedOut(run, n, id, pairingId)
  {
  }

  lemma {:induction false} PromiseKept(run: Run, k: nat)
    requires k <= |run.ops| && Alone(run)
    ensures Promised(run, k)
  {
    if k > 0 {
      PromiseKept(run, k - 1);
      var s := At(run, k - 1);
      if s.reservedClientId.Some? && s.reservedPairingId.Some? {
        StillHandedOut(run, k - 1, k, s.reservedClientId.value, s.reservedPairingId.value);
      }
      PromiseStep(run, k);
    }
  }

  lemma PromiseStep(run: Run, k: nat)
    requires 0 < k <= |run.ops| && Alone(run) && Promised(run, k - 1)
    requires var s := At(run, k - 1);
      s.reservedClientId.Some? && s.reservedPairingId.Some? ==>
        HandedOut(run, k, s.reservedClientId.value, s.reservedPairingId.value)
    ensures Promised(run, k)
  {
    hide Storable, TokenText, CapabilityMatches, MayAuthenticate, Signed, InWindow, FreshPending, HandedOut;
    var s := At(run, k - 1);
    var op := run.ops[k - 1];
    assert At(run, k) == Next(s, op, run.config);
    if op.Pair? && PairStored(s, op.pairing, run.config.window) {
      var client := PairedClient(s.clients, op.pairing, run.config.window.value);
      assert HandedOut(run, k, op.pairing.body.value.0, client.pairingId.value) by {
        NowHandedOut(run, k - 1);
      }
    }
  }

  lemma NowHandedOut(run: Run, i: nat)
    requires i < |run.ops| && Pairs(run, i)
    ensures var p := run.ops[i].pairing;
            var client := PairedClient(At(run, i).clients, p, run.config.window.value);
            client.pairingId.Some? && HandedOut(run, i + 1, p.body.value.0, client.pairingId.value)
  {
    hide Storable, TokenText, CapabilityMatches, At;
  }

  /** The window was last reserved by a pairing that reached the disk. */
  predicate PairingSaved(run: Run, k: nat)
    requires k <= |run.ops|
  {
    At(run, k).reservedPairingId.Some?
  }

  /** Whoever still holds a handed-out id holds the window. */
  ghost predicate HoldersReserve(run: Run, k: nat)
    requires k <= |run.ops|
  {
    var s := At(run, k);
    forall c :: Holds(s, c) && HandedOut(run, k, c, s.clients[c].pairingId.value) ==>
                  s.reservedClientId == Some(c) && s.reservedPairingId.Some?
  }

  predicate Holds(s: State, c: Text)
  {
    c in s.clients && s.clients[c].status.Pending? && s.clients[c].pairingId.Some?
  }

  lemma HandedOutNow(run: Run, k: nat, id: Text, pairingId: Text)
    requires 0 < k <= |run.ops| && HandedOut(run, k, id, pairingId)
    ensures HandedOut(run, k - 1, id, pairingId) || (Pairs(run, k - 1) && run.ops[k - 1].pairing.body.value.0 == id)
  {
    hide PairedClient, At, PairStored;
  }

  lemma NothingHandedOutYet(run: Run)
    ensures forall c, pairingId :: !HandedOut(run, 0, c, pairingId)
  {
  }

  lemma {:induction false} HoldersKeepReserving(run: Run, k: nat)
    requires k <= |run.ops| && Alone(run)
    ensures HoldersReserve(run, k)
  {
    hide Promised, HandedOut, At, Alone;
    if k == 0 {
      NothingHandedOutYet(run);
    } else {
      HoldersKeepReserving(run, k - 1);
      PromiseKept(run, k - 1);
      var t := At(run, k);
      forall c | Holds(t, c) && HandedOut(run, k, c, t.clients[c].pairingId.value)
        ensures t.reservedClientId == Some(c) && t.reservedPairingId.Some?
      {
        HolderStep(run, k, c);
      }
    }
  }

  lemma HolderStep(run: Run, k: nat, c: Text)
    requires 0 < k <= |run.ops| && Alone(run) && Promised(run, k - 1) && HoldersReserve(run, k - 1)
    requires Holds(At(run, k), c)
    requires HandedOut(run, k, c, At(run, k).clients[c].pairingId.value)
    ensures At(run, k).reservedClientId == Some(c) && At(run, k).reservedPairingId.Some?
  {
    hide Storable, TokenText, CapabilityMatches, SeenBy, After, FreshPending, HandedOut;
    var s, t := At(run, k - 1), At(run, k);
    assert t == Next(s, run.ops[k - 1], run.config);
    HandedOutNow(run, k, c, t.clients[c].pairingId.value);
    hide At, Alone;
    assert c in s.clients && t.clients[c] == s.clients[c] ==> Holds(s, c);
    match run.ops[k - 1]
    case Pair(p) =>
      if PairStored(s, p, run.config.window) && c == p.body.value.0 {
        assert t.reservedClientId == Some(c);
      } else {
        assert t.clients[c] == s.clients[c];
      }
    case Acknowledge(a) =>
      assert t.clients[c] == s.clients[c];
    case Discard(disk) =>
      assert t.clients[c] == s.clients[c];
    case Authenticate(a) =>
      assert t.clients[c] == s.clients[c];
    case Elsewhere(_) =>
  }

  /** An acknowledgement succeeds only for the reserved client and before expiry; the id it uses was handed out in this
      run exactly when the reservation reached the disk. */
  lemma AckNeedsHandedOutId(run: Run, k: nat)
    requires k < |run.ops| && Alone(run) && Acks(run, k)
    ensures At(run, k).reservedClientId == Some(run.ops[k].ack.clientId)
    ensures run.ops[k].ack.nowMs < run.config.window.value.expiresAt
    ensures HandedOut(run, k, run.ops[k].ack.clientId, run.ops[k].ack.pairingId) <==> PairingSaved(run, k)
  {
    hide HandedOut, Storable, At;
    PromiseKept(run, k);
    HoldersKeepReserving(run, k);
  }

  lemma {:induction false} SavedWhenAllPairingsSave(run: Run, k: nat)
    requires k <= |run.ops|
    requires forall i :: 0 <= i < k && run.ops[i].Pair? && PairAdmitted(At(run, i), run.ops[i].pairing, run.config.window) ==>
      Pairs(run, i)
    ensures At(run, k).reservedClientId.Some? ==> PairingSaved(run, k)
  {
    hide Storable, TokenText, CapabilityMatches, MayAuthenticate, Signed, InWindow, FreshPending;
    if k > 0 {
      SavedWhenAllPairingsSave(run, k - 1);
    }
  }

  /** If every admitted pairing reaches the disk, only handed-out ids activate. */
  lemma OnlyHandedOutActivates(run: Run, k: nat)
    requires k < |run.ops| && Alone(run) && Acks(run, k)
    requires forall i :: 0 <= i < k && run.ops[i].Pair? && PairAdmitted(At(run, i), run.ops[i].pairing, run.config.window) ==>
      Pairs(run, i)
    ensures HandedOut(run, k, run.ops[k].ack.clientId, run.ops[k].ack.pairingId)
  {
    assert At(run, k).reservedClientId.Some?;
    hide HandedOut, Storable, At;
    SavedWhenAllPairingsSave(run, k);
    AckNeedsHandedOutId(run, k);
  }

  /** A pairing whose write fails still reserves the window: a pending client left over from an earlier server can then
      be activated with its old id, which this server never handed out. */
  lemma UnsavedPairingCanActivate(stored: Clients, config: Config, p: Pairing, id: Text, pairingId: Text)
    requires config.window.Some? && PairAdmitted(State(stored, None, None, false, map[]), p, config.window) && !p.disk
    requires p.body.value.0 == id && id in stored && stored[id].status.Pending? && stored[id].pairingId == Some(pairingId)
    requires FreshPending(stored[id].updatedAt, p.nowMs) && Storable(Activated(stored, id, p.nowMs), true)
    ensures var run := Run([Pair(p), Acknowledge(Acknowledgement(pairingId, id, p.nowMs, true))], stored, config);
            Alone(run) && Acks(run, 1) && !HandedOut(run, 1, id, pairingId)
  {
    hide TokenText, CapabilityMatches, SecretText;
    var run := Run([Pair(p), Acknowledge(Acknowledgement(pairingId, id, p.nowMs, true))], stored, config);
    assert At(run, 0) == State(stored, None, None, false, map[]);
    assert At(run, 1) == AfterPair(At(run, 0), p, config.window);
    assert !Pairs(run, 0);
  }

  // ---- The conditions, in full ----

  /** A pairing is admitted exactly inside the window, for a client id of 43 token characters and a capability of as many that
      decodes to the 32 octets of the window's, while no other client holds the window. */
  lemma PairingInTerms(s: State, p: Pairing, window: Option<Window>)
    ensures PairAdmitted(s, p, window) <==>
      && window.Some? && !s.consumed && p.nowMs < window.value.expiresAt && p.body.Some?
      && var (id, capability) := p.body.value;
      && |id| == 43 && (forall i :: 0 <= i < 43 ==> IsToken(id[i]))
      && |capability| == 43 && (forall i :: 0 <= i < 43 ==> IsToken(capability[i]))
      && |window.value.octets(capability)| == 32
      && window.value.octets(capability) == window.value.octets(window.value.capability)
      && (s.reservedClientId.None? || s.reservedClientId.value == id)
  {
  }

  /** An acknowledgement succeeds exactly inside the window, for the reserved client while it is pending with this id for less
      than five minutes, if a list of at most 128 clients with well-formed ids and secrets can be written. */
  lemma AcknowledgementInTerms(s: State, a: Acknowledgement, window: Option<Window>)
    ensures AckSucceeds(s, a, window) <==>
      && window.Some? && !s.consumed && a.nowMs < window.value.expiresAt && s.reservedClientId == Some(a.clientId)
      && a.clientId in s.clients
      && var client := s.clients[a.clientId];
      && client.status == Pending && client.pairingId == Some(a.pairingId) && 0 <= a.nowMs - client.updatedAt < 300_000
      && a.disk && |s.clients| <= 128
      && forall c :: c in s.clients ==> SecretText(c) && SecretText(s.clients[c].secret)
  {
    hide SecretText;
    if a.clientId in s.clients {
      var activated := Activated(s.clients, a.clientId, a.nowMs);
      assert activated.Keys == s.clients.Keys;
      assert |activated| == |activated.Keys| && |s.clients| == |s.clients.Keys|;
      forall c | c in s.clients ensures activated[c].secret == s.clients[c].secret {
      }
    }
  }

  /** A pending client authenticates exactly with a signed, timely request the guard admits, to POST the acknowledgement, while
      it holds the window with an id younger than five minutes. */
  lemma PendingAuthenticatesInTerms(s: State, a: Attempt, config: Config)
    requires a.request.clientId in s.clients && s.clients[a.request.clientId].status == Pending
    ensures var client := s.clients[a.request.clientId];
      AuthSucceeds(s, a, config) <==>
        && a.allowPending && a.request.verb == Ascii("POST") && a.request.pathname == Ascii("/v1/pair/ack")
        && config.window.Some? && !s.consumed && a.nowMs < config.window.value.expiresAt
        && s.reservedClientId == Some(a.request.clientId) && client.pairingId.Some? && 0 <= a.nowMs - client.updatedAt < 300_000
        && Signed(a.request, a.signature, client.secret, config.mac) && InWindow(a.request.timestamp, a.nowMs, 60)
        && Admits(Alive(s.live, a.nowMs), a.request.clientId, a.request.nonce, LIMITS)
  {
    hide Signed, InWindow, Admits, Alive, Ascii;
    RouteTexts();
  }

  // ---- From a pairing to its first request ----

  /** A pairing that makes a new client, acknowledged with the id it handed out: the acknowledgement succeeds exactly before
      the window expires, less than five minutes after the pairing, if the list can be written. Then the client is active
      with the secret it was given, and may read, and write exactly if the window allows it. */
  lemma PairedThenActive(s: State, p: Pairing, a: Acknowledgement, window: Window)
    requires PairStored(s, p, Some(window)) && !Resumable(s.clients, p.body.value.0, p.laterMs)
    requires a.clientId == p.body.value.0 && a.pairingId == p.newPairingId
    ensures var t := AfterPair(s, p, Some(window));
            AckSucceeds(t, a, Some(window)) <==> a.nowMs < window.expiresAt && 0 <= a.nowMs - p.laterMs < 300_000 && a.disk
    ensures var u := AfterAck(AfterPair(s, p, Some(window)), a, Some(window));
            AckSucceeds(AfterPair(s, p, Some(window)), a, Some(window)) ==>
              && u.consumed && a.clientId in u.clients
              && u.clients[a.clientId] == Client(p.newSecret, true, window.allowWrite, Active, None, p.laterMs, a.nowMs)
  {
    hide TokenText, CapabilityMatches, SecretText, DropStale;
    var paired := PairedClients(s.clients, p, window);
    var activated := Activated(paired, a.clientId, a.nowMs);
    assert activated.Keys == paired.Keys;
    assert |activated| == |activated.Keys| && |paired| == |paired.Keys|;
    forall c | c in activated ensures activated[c].secret == paired[c].secret {
    }
  }

  /** A pairing touches the paired client, and otherwise only drops clients left pending for five minutes or more. */
  lemma PairingKeepsOthers(s: State, p: Pairing, window: Window, c: Text)
    requires PairStored(s, p, Some(window)) && c != p.body.value.0
    ensures var t := AfterPair(s, p, Some(window));
            && (c in t.clients <==>
                  c in s.clients && (s.clients[c].status.Pending? ==> 0 <= p.laterMs - s.clients[c].updatedAt < 300_000))
            && (c in t.clients ==> t.clients[c] == s.clients[c])
  {
    hide Storable, PairAdmitted, Resumable;
  }

  /** Once acknowledged, the stored clients stay as they are. */
  lemma {:induction false} ClientsStay(run: Run, k: nat, n: nat)
    requires k < n <= |run.ops| && Alone(run) && Acks(run, k)
    ensures At(run, n).clients == At(run, k + 1).clients && At(run, n).consumed
    decreases n
  {
    hide Storable, TokenText, CapabilityMatches, MayAuthenticate, Signed, InWindow, After, SeenBy;
    if k + 1 < n {
      ClientsStay(run, k, n - 1);
      assert At(run, n) == Next(At(run, n - 1), run.ops[n - 1], run.config);
    }
  }

  /** From its acknowledgement on, a client authenticates with exactly the signed, timely requests the guard admits, on any
      route, and is granted what it was paired with. */
  lemma AcknowledgedAuthenticates(run: Run, k: nat, n: nat)
    requires k < n < |run.ops| && Alone(run) && Acks(run, k)
    requires run.ops[n].Authenticate? && run.ops[n].attempt.request.clientId == run.ops[k].ack.clientId
    ensures var id, a := run.ops[k].ack.clientId, run.ops[n].attempt;
            && id in At(run, k).clients
            && (Auths(run, n) <==>
                  && Signed(a.request, a.signature, At(run, k).clients[id].secret, run.config.mac)
                  && InWindow(a.request.timestamp, a.nowMs, 60)
                  && Admits(Alive(At(run, n).live, a.nowMs), id, a.request.nonce, LIMITS))
            && id in At(run, n).clients
            && At(run, n).clients[id].read == At(run, k).clients[id].read
            && At(run, n).clients[id].write == At(run, k).clients[id].write
  {
    hide Storable, Signed, InWindow, Admits, Alive;
    ClientsStay(run, k, n);
    assert At(run, k + 1) == AfterAck(At(run, k), run.ops[k].ack, run.config.window);
    hide At;
  }

  // ---- Retrying and discarding ----

  /** A retry of the reserved client less than five minutes after its pairing gets the same id, secret and capabilities
      again; a later one gets new ones. */
  lemma RetryIsIdempotent(s: State, p: Pairing, q: Pairing, window: Window)
    requires PairStored(s, p, Some(window)) && q.body.Some? && q.body.value.0 == p.body.value.0
    requires PairedClient(s.clients, p, window).pairingId != Some([])
    ensures var t, before := AfterPair(s, p, Some(window)), PairedClient(s.clients, p, window);
            PairedClient(t.clients, q, window) ==
              if 0 <= q.laterMs - before.updatedAt < 300_000 then before
              else Client(q.newSecret, true, window.allowWrite, Pending, Some(q.newPairingId), q.laterMs, q.laterMs)
  {
    hide Storable, PairAdmitted;
  }

  /** Discarding right after a pairing takes the paired client out again and frees the window; every other client stays. */
  lemma DiscardUndoesPairing(s: State, p: Pairing, window: Window, disk: bool)
    requires PairStored(s, p, Some(window)) && p.body.value.0 != []
    requires PairedClient(s.clients, p, window).pairingId != Some([])
    requires Storable(DropStale(s.clients, p.body.value.0, p.laterMs) - {p.body.value.0}, disk)
    ensures var t := AfterDiscard(AfterPair(s, p, Some(window)), disk);
            && t.clients == DropStale(s.clients, p.body.value.0, p.laterMs) - {p.body.value.0}
            && t.reservedClientId.None? && t.reservedPairingId.None? && !t.consumed
  {
    hide Storable, TokenText, CapabilityMatches, FreshPending, PairedClient, PairedClients, WithoutPending, DropStale;
    PairedHasId(s.clients, p, window);
    PairedIsTakenOut(s.clients, p, window);
  }

  /** A discard takes out the reserved client if it is pending with the reserved id, and no other. */
  lemma DiscardKeepsOthers(s: State, disk: bool, c: Text)
    ensures var t := AfterDiscard(s, disk);
            && (c in t.clients ==> c in s.clients && t.clients[c] == s.clients[c])
            && (c in s.clients && c !in t.clients ==>
                  && s.reservedClientId == Some(c) && s.clients[c].status == Pending && !s.consumed
                  && s.reservedPairingId.Some? && s.clients[c].pairingId == s.reservedPairingId)
  {
    hide Storable;
  }

  /** The stored list never grows beyond 128 clients. */
  lemma {:induction false} AtMost128Clients(run: Run, k: nat)
    requires k <= |run.ops| && Alone(run) && |run.stored| <= 128
    ensures |At(run, k).clients| <= 128
  {
    hide At;
    if k > 0 {
      AtMost128Clients(run, k - 1);
      NextState(run, k - 1);
      StepKeepsSize(At(run, k - 1), run.ops[k - 1], run.config);
    } else {
      StartsWithStored(run);
    }
  }

  lemma StartsWithStored(run: Run)
    ensures At(run, 0).clients == run.stored
  {
  }

  lemma StepKeepsSize(s: State, op: Op, config: Config)
    requires !op.Elsewhere? && |s.clients| <= 128
    ensures |Next(s, op, config).clients| <= 128
  {
    hide SecretText, TokenText, CapabilityMatches, MayAuthenticate, Signed, InWindow, FreshPending, After, SeenBy;
    hide PairedClients, WithoutPending, Activated;
  }

  lemma PairedHasId(clients: Clients, p: Pairing, window: Window)
    requires p.body.Some?
    ensures var c := PairedClient(clients, p, window); c.status.Pending? && c.pairingId.Some?
  {
    hide FreshPending;
  }

  lemma PairedIsTakenOut(clients: Clients, p: Pairing, window: Window)
    requires p.body.Some?
    ensures var id := p.body.value.0;
            WithoutPending(PairedClients(clients, p, window), id, PairedClient(clients, p, window).pairingId.value)
            == DropStale(clients, id, p.laterMs) - {id}
  {
    hide FreshPending, PairedClient, DropStale;
    PairedHasId(clients, p, window);
  }

  // ---- The active set ----

  function ActiveIds(clients: Clients): set<Text> { set c | c in clients && clients[c].status.Active? }

  /** Nothing but an acknowledgement makes a client active. */
  lemma StepKeepsActives(s: State, op: Op, config: Config)
    requires !op.Elsewhere?
    requires op.Acknowledge? ==> !AckSucceeds(s, op.ack, config.window)
    ensures ActiveIds(Next(s, op, config).clients) <= ActiveIds(s.clients)
  {
    hide Storable, TokenText, CapabilityMatches, MayAuthenticate, Signed, InWindow, FreshPending;
  }

  lemma {:induction false} NoAckNoActivation(run: Run, i: nat, n: nat)
    requires i <= n <= |run.ops| && Alone(run)
    requires forall k :: i <= k < n ==> !Acks(run, k)
    ensures ActiveIds(At(run, n).clients) <= ActiveIds(At(run, i).clients)
    decreases n
  {
    hide ActiveIds, AckSucceeds;
    if i < n {
      NoAckNoActivation(run, i, n - 1);
      assert !Acks(run, n - 1);
      hide Next;
      StepKeepsActives(At(run, n - 1), run.ops[n - 1], run.config);
    }
  }

  /** From its acknowledgement on, the active set is what it was before, and the acknowledged client. */
  lemma ActiveGainsTheAcknowledged(run: Run, k: nat, n: nat)
    requires k < n <= |run.ops| && Alone(run) && Acks(run, k)
    ensures ActiveIds(At(run, n).clients) == ActiveIds(At(run, k).clients) + {run.ops[k].ack.clientId}
    ensures run.ops[k].ack.clientId !in ActiveIds(At(run, k).clients)
  {
    hide Storable;
    ClientsStay(run, k, n);
    assert At(run, k + 1) == AfterAck(At(run, k), run.ops[k].ack, run.config.window);
  }

  /** An active client stays as it is for as long as it is not paired again. */
  lemma {:induction false} ActiveStaysUnlessPaired(run: Run, i: nat, n: nat, c: Text)
    requires i <= n <= |run.ops| && Alone(run) && c in ActiveIds(At(run, i).clients)
    requires forall k :: i <= k < n && Pairs(run, k) ==> run.ops[k].pairing.body.value.0 != c
    ensures c in At(run, n).clients && At(run, n).clients[c] == At(run, i).clients[c]
    decreases n
  {
    hide At;
    if i < n {
      ActiveStaysUnlessPaired(run, i, n - 1, c);
      ActiveStep(At(run, n - 1), run.ops[n - 1], run.config, c);
      NextState(run, n - 1);
    }
  }

  lemma NextState(run: Run, k: nat)
    requires k < |run.ops|
    ensures At(run, k + 1) == Next(At(run, k), run.ops[k], run.config)
  {
    hide Next;
  }

  lemma ActiveStep(s: State, op: Op, config: Config, c: Text)
    requires !op.Elsewhere? && c in s.clients && s.clients[c].status.Active?
    requires op.Pair? && PairStored(s, op.pairing, config.window) ==> op.pairing.body.value.0 != c
    ensures var t := Next(s, op, config); c in t.clients && t.clients[c] == s.clients[c]
  {
    hide Storable, PairAdmitted, MayAuthenticate, Signed, InWindow, FreshPending, After, SeenBy;
  }

  /** Over a whole run the active set gains at most the one client that was acknowledged. */
  lemma ActiveGainsAtMostOne(run: Run, k: nat, n: nat)
    requires k < n <= |run.ops| && Alone(run) && Acks(run, k)
    ensures ActiveIds(At(run, n).clients) <= ActiveIds(run.stored) + {run.ops[k].ack.clientId}
  {
    hide AckSucceeds;
    forall j | k < j < n ensures !Acks(run, j) {
      OneActivation(run, k, j);
    }
    NoAckNoActivation(run, k + 1, n);
    forall j | 0 <= j < k ensures !Acks(run, j) {
      if Acks(run, j) {
        OneActivation(run, j, k);
      }
    }
    NoAckNoActivation(run, 0, k);
    hide Acks;
    assert At(run, k + 1) == AfterAck(At(run, k), run.ops[k].ack, run.config.window);
  }

  // ---- Replay ----

  function TimeOf(op: Op): int
  {
    match op
    case Pair(p) => p.laterMs
    case Authenticate(a) => a.nowMs
    case Acknowledge(a) => a.nowMs
    case _ => 0
  }

  predicate AuthClockNeverGoesBack(run: Run)
  {
    forall i, j :: 0 <= i <= j < |run.ops| && run.ops[i].Authenticate? && run.ops[j].Authenticate? ==>
      TimeOf(run.ops[i]) <= TimeOf(run.ops[j])
  }

  /** The authentication attempts of a run, as the replay guard sees them. */
  function Seen(run: Run, k: nat): seq<Event>
    requires k <= |run.ops|
  {
    if k == 0 then []
    else if run.ops[k - 1].Authenticate? then Seen(run, k - 1) + [SeenBy(At(run, k - 1), run.ops[k - 1].attempt, run.config)]
    else Seen(run, k - 1)
  }

  lemma {:induction false} GuardFollows(run: Run, k: nat)
    requires k <= |run.ops|
    ensures At(run, k).live == StateAt(Seen(run, k), |Seen(run, k)|, Setting(run.config))
  {
    hide SeenBy, After, AfterPair, AfterAck, AfterDiscard;
    if k > 0 {
      GuardFollows(run, k - 1);
      LiveChanges(At(run, k - 1), run.ops[k - 1], run.config);
      if run.ops[k - 1].Authenticate? {
        PrefixState(Seen(run, k), Seen(run, k - 1), |Seen(run, k - 1)|, Setting(run.config));
      }
    }
  }

  lemma LiveChanges(s: State, op: Op, config: Config)
    ensures Next(s, op, config).live ==
            if op.Authenticate? then After(s.live, SeenBy(s, op.attempt, config), Setting(config)) else s.live
  {
    hide Storable, TokenText, CapabilityMatches, MayAuthenticate, After, SeenBy;
  }

  lemma {:induction false} PrefixState(whole: seq<Event>, part: seq<Event>, n: nat, setup: Setup)
    requires n <= |part| <= |whole| && part == whole[..|part|]
    ensures StateAt(whole, n, setup) == StateAt(part, n, setup)
  {
    hide After;
    if n > 0 {
      PrefixState(whole, part, n - 1, setup);
      assert part[n - 1] == whole[n - 1];
    }
  }

  lemma {:induction false} SeenGrows(run: Run, k: nat, n: nat)
    requires k <= n <= |run.ops|
    ensures |Seen(run, k)| <= |Seen(run, n)| && Seen(run, k) == Seen(run, n)[..|Seen(run, k)|]
    decreases n
  {
    hide SeenBy, At;
    if k < n {
      SeenGrows(run, k, n - 1);
    }
  }

  lemma {:induction false} SeenClock(run: Run, n: nat)
    requires n <= |run.ops| && AuthClockNeverGoesBack(run)
    ensures forall e :: e in Seen(run, n) ==> e.Verify?
    ensures forall i, k :: 0 <= i < |Seen(run, n)| && n <= k < |run.ops| && run.ops[k].Authenticate? ==>
      Seen(run, n)[i].nowMs <= TimeOf(run.ops[k])
    ensures ClockNeverGoesBack(Seen(run, n))
  {
    hide At, MayAuthenticate;
    if n > 0 {
      SeenClock(run, n - 1);
    }
  }

  /** An attempt that succeeds is a success of the guard's run, at the place where it is seen. */
  lemma AuthIsSeen(run: Run, k: nat, n: nat)
    requires k < n <= |run.ops| && Auths(run, k)
    ensures var i := |Seen(run, k)|;
            && i < |Seen(run, n)| && Seen(run, n)[i] == SeenBy(At(run, k), run.ops[k].attempt, run.config)
            && Seen(run, n)[i].request == run.ops[k].attempt.request
            && Succeeds(Seen(run, n), i, Setting(run.config))
  {
    GuardFollows(run, k);
    SeenGrows(run, k, n);
    SeenGrows(run, k + 1, n);
    PrefixState(Seen(run, n), Seen(run, k), |Seen(run, k)|, Setting(run.config));
    hide At, MayAuthenticate, StateAt, Admits, Alive, Checked;
    assert Seen(run, k + 1)[|Seen(run, k)|] == SeenBy(At(run, k), run.ops[k].attempt, run.config);
  }

  /** While the clock never goes back, the server never accepts one request twice. */
  lemma RequestAuthenticatesOnce(run: Run, j: nat, k: nat)
    requires j < k < |run.ops| && Auths(run, j) && Auths(run, k) && AuthClockNeverGoesBack(run)
    ensures (run.ops[j].attempt.request.clientId, run.ops[j].attempt.request.nonce, run.ops[j].attempt.request.timestamp)
         != (run.ops[k].attempt.request.clientId, run.ops[k].attempt.request.nonce, run.ops[k].attempt.request.timestamp)
  {
    var n := |run.ops|;
    var i, l := |Seen(run, j)|, |Seen(run, k)|;
    hide At, Seen, ClockNeverGoesBack, AuthClockNeverGoesBack, SeenBy, Succeeds, RevokedBetween, Auths;
    AuthIsSeen(run, j, n);
    AuthIsSeen(run, k, n);
    AuthIsSeen(run, j, k);
    SeenClock(run, n);
    VerifiedWithoutRevoking(Seen(run, n), i, l, run.ops[j].attempt.request.clientId);
    assert Seen(run, n)[i].request == run.ops[j].attempt.request && Seen(run, n)[l].request == run.ops[k].attempt.request;
    NoReplay(Seen(run, n), i, l, Setting(run.config));
  }

  lemma VerifiedWithoutRevoking(events: seq<Event>, i: nat, j: nat, client: Text)
    requires j <= |events| && forall e :: e in events ==> e.Verify?
    ensures !RevokedBetween(events, i, j, client)
  {
    forall m | i < m < j ensures events[m] != Revoke(client) {
      assert events[m] in events;
    }
  }
}
