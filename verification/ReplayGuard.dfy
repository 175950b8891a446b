/** `NonceReplayGuard`: a map of maps with expiry, refined to one plain table of live nonces. */
module ReplayGuard {
  import opened Json
  import opened Sets

  datatype Limits = Limits(ttlMs: int, perClient: int, clients: int)

  datatype Key = Key(client: Text, nonce: Text)

  /** Every remembered (client, nonce) pair with the time it expires. */
  type Live = map<Key, int>

  // ---- The plain table ----

  function Alive(live: Live, now: int): Live { map k | k in live && live[k] > now :: live[k] }

  function KeysOf(live: Live, client: Text): set<Key> { set k | k in live && k.client == client }

  function ClientsOf(live: Live): set<Text> { set k | k in live :: k.client }

  predicate Admits(live: Live, client: Text, nonce: Text, limits: Limits)
  {
    && Key(client, nonce) !in live
    && |KeysOf(live, client)| < limits.perClient
    && (client in ClientsOf(live) || |ClientsOf(live)| < limits.clients)
  }

  function Consumed(live: Live, client: Text, nonce: Text, now: int, limits: Limits): Live
  {
    var alive := Alive(live, now);
    if Admits(alive, client, nonce, limits) then alive[Key(client, nonce) := now + limits.ttlMs] else alive
  }

  function Revoked(live: Live, client: Text): Live { map k | k in live && k.client != client :: live[k] }

  /** The memory bound the guard promises. */
  ghost predicate Bounded(live: Live, limits: Limits)
  {
    && |ClientsOf(live)| <= limits.clients
    && forall client :: |KeysOf(live, client)| <= limits.perClient
  }

  /** Forgetting keeps the bounds. */
  lemma PartKeepsBounds(part: Live, live: Live, limits: Limits)
    requires Bounded(live, limits)
    requires part.Keys <= live.Keys
    ensures Bounded(part, limits)
  {
    SubsetSize(ClientsOf(part), ClientsOf(live));
    forall c ensures |KeysOf(part, c)| <= limits.perClient {
      SubsetSize(KeysOf(part, c), KeysOf(live, c));
    }
  }

  lemma AddingCounts(live: Live, client: Text, nonce: Text, expiry: int)
    requires Key(client, nonce) !in live
    ensures ClientsOf(live[Key(client, nonce) := expiry]) == ClientsOf(live) + {client}
    ensures forall c :: |KeysOf(live[Key(client, nonce) := expiry], c)| == |KeysOf(live, c)| + if c == client then 1 else 0
  {
    var next := live[Key(client, nonce) := expiry];
    assert Key(client, nonce) in next;
    assert forall c :: c in ClientsOf(next) ==> c in ClientsOf(live) + {client};
    forall c ensures |KeysOf(next, c)| == |KeysOf(live, c)| + if c == client then 1 else 0 {
      assert KeysOf(next, c) == if c == client then KeysOf(live, c) + {Key(client, nonce)} else KeysOf(live, c);
    }
  }

  lemma ConsumeKeepsBounds(live: Live, client: Text, nonce: Text, now: int, limits: Limits)
    requires Bounded(live, limits)
    ensures Bounded(Consumed(live, client, nonce, now, limits), limits)
  {
    var alive := Alive(live, now);
    PartKeepsBounds(alive, live, limits);
    hide ClientsOf, KeysOf, Alive;
    if Admits(alive, client, nonce, limits) {
      AddingCounts(alive, client, nonce, now + limits.ttlMs);
      var next := Consumed(live, client, nonce, now, limits);
      assert client in ClientsOf(alive) ==> ClientsOf(alive) + {client} == ClientsOf(alive);
      assert |ClientsOf(next)| <= limits.clients;
      forall c ensures |KeysOf(next, c)| <= limits.perClient {
        assert |KeysOf(alive, c)| <= limits.perClient;
      }
    }
  }

  /** What one call remembers: of before, exactly what has not expired by now; and the new nonce until its time is over, if
      it is not remembered, its client has room, and its client is known or one more is admitted. */
  lemma ConsumeInTerms(live: Live, client: Text, nonce: Text, now: int, limits: Limits)
    ensures var next, key := Consumed(live, client, nonce, now, limits), Key(client, nonce);
      var mine := set k | k in live && live[k] > now && k.client == client;
      var clients := set k | k in live && live[k] > now :: k.client;
      var unseen := !(key in live && live[key] > now);
      && (Admits(Alive(live, now), client, nonce, limits) <==>
            unseen && |mine| < limits.perClient && (client in clients || |clients| < limits.clients))
      && (forall k :: k != key ==> (k in next <==> k in live && live[k] > now) && (k in next ==> next[k] == live[k]))
      && (unseen ==> (key in next <==> Admits(Alive(live, now), client, nonce, limits)))
      && (unseen && key in next ==> next[key] == now + limits.ttlMs)
      && (!unseen ==> key in next && next[key] == live[key])
  {
    var alive := Alive(live, now);
    assert KeysOf(alive, client) == set k | k in live && live[k] > now && k.client == client;
    assert ClientsOf(alive) == set k | k in live && live[k] > now :: k.client;
  }

  /** A revoked client is forgotten, and nobody else. */
  lemma RevokeInTerms(live: Live, client: Text, k: Key)
    ensures k in Revoked(live, client) <==> k in live && k.client != client
    ensures k in Revoked(live, client) ==> Revoked(live, client)[k] == live[k]
  {
  }

  lemma RevokeKeepsBounds(live: Live, client: Text, limits: Limits)
    requires Bounded(live, limits)
    ensures Bounded(Revoked(live, client), limits)
  {
    PartKeepsBounds(Revoked(live, client), live, limits);
  }

  // ---- The map of maps ----

  type Table = map<Text, map<Text, int>>

  /** The map of maps holds exactly the pairs and expiries of the plain table. */
  ghost predicate Represents(table: Table, live: Live)
  {
    && (forall k :: k in live <==> (k.client in table && k.nonce in table[k.client]))
    && (forall k :: k in live ==> live[k] == table[k.client][k.nonce])
  }

  function Surviving(nonces: map<Text, int>, now: int): map<Text, int>
  {
    map n | n in nonces && nonces[n] > now :: nonces[n]
  }

  function Purged(table: Table, now: int): Table
  {
    map c | c in table && Surviving(table[c], now) != map[] :: Surviving(table[c], now)
  }

  predicate NoneEmpty(table: Table) { forall c :: c in table ==> table[c] != map[] }

  lemma PurgeRepresents(table: Table, live: Live, now: int)
    requires Represents(table, live)
    ensures Represents(Purged(table, now), Alive(live, now)) && NoneEmpty(Purged(table, now))
  {
    forall c, n | c in table && n in table[c] && table[c][n] > now ensures c in Purged(table, now) {
      assert n in Surviving(table[c], now);
    }
  }

  lemma {:induction false} PairsCount(client: Text, names: set<Text>)
    ensures |set n | n in names :: Key(client, n)| == |names|
  {
    if names != {} {
      var n :| n in names;
      PairsCount(client, names - {n});
      assert (set m | m in names :: Key(client, m)) == (set m | m in names - {n} :: Key(client, m)) + {Key(client, n)};
    }
  }

  /** Where no inner map is empty, the sizes the code compares are the sizes of the plain table. */
  lemma TableCounts(table: Table, live: Live)
    requires Represents(table, live) && NoneEmpty(table)
    ensures table.Keys == ClientsOf(live)
    ensures forall c :: |KeysOf(live, c)| == if c in table then |table[c]| else 0
  {
    forall c | c in table ensures c in ClientsOf(live) {
      var n :| n in table[c];
      assert Key(c, n) in live;
    }
    forall c ensures |KeysOf(live, c)| == if c in table then |table[c]| else 0 {
      if c in table {
        PairsCount(c, table[c].Keys);
        assert KeysOf(live, c) == set n | n in table[c].Keys :: Key(c, n);
      } else {
        assert KeysOf(live, c) == {};
      }
    }
  }

  class NonceReplayGuard {
    const limits: Limits
    var nonces: Table

    ghost var contents: Live

    ghost predicate Valid()
      reads this
    {
      Represents(nonces, contents)
    }

    constructor (limits: Limits)
      ensures Valid() && this.limits == limits && contents == map[]
    {
      this.limits := limits;
      this.nonces := map[];
      this.contents := map[];
    }

    /** Drops a client's expired nonces. */
    static method PurgeClient(nonces: map<Text, int>, nowMs: int) returns (left: map<Text, int>)
      ensures left == Surviving(nonces, nowMs)
    {
      left := nonces;
      var toVisit := nonces.Keys;
      while toVisit != {}
        invariant toVisit <= nonces.Keys
        invariant left == map n | n in nonces && (n in toVisit || nonces[n] > nowMs) :: nonces[n]
        decreases |toVisit|
      {
        var n :| n in toVisit;
        if left[n] <= nowMs {
          left := left - {n};
        }
        toVisit := toVisit - {n};
      }
    }

    method PurgeAll(nowMs: int)
      requires Valid()
      modifies this
      ensures Valid() && contents == Alive(old(contents), nowMs) && NoneEmpty(nonces)
    {
      Purge(nowMs);
      PurgeRepresents(old(nonces), contents, nowMs);
      contents := Alive(contents, nowMs);
    }

    method Purge(nowMs: int)
      modifies this`nonces
      ensures nonces == Purged(old(nonces), nowMs)
    {
      var toVisit := nonces.Keys;
      while toVisit != {}
        invariant toVisit <= old(nonces).Keys
        invariant nonces == map c | c in old(nonces) && (c in toVisit || Surviving(old(nonces)[c], nowMs) != map[]) ::
          if c in toVisit then old(nonces)[c] else Surviving(old(nonces)[c], nowMs)
        decreases |toVisit|
      {
        hide Surviving;
        var c :| c in toVisit;
        var left := PurgeClient(nonces[c], nowMs);
        if left == map[] {
          nonces := nonces - {c};
        } else {
          nonces := nonces[c := left];
        }
        toVisit := toVisit - {c};
      }
    }

    /** Refuses a nonce it still remembers, and any nonce beyond its capacity. */
    method Consume(clientId: Text, nonce: Text, nowMs: int) returns (accepted: bool)
      requires Valid()
      modifies this
      ensures Valid()
      ensures accepted == Admits(Alive(old(contents), nowMs), clientId, nonce, limits)
      ensures contents == Consumed(old(contents), clientId, nonce, nowMs, limits)
    {
      hide Represents, Alive, KeysOf, ClientsOf, NoneEmpty;
      PurgeAll(nowMs);
      TableCounts(nonces, contents);
      accepted := TryAdd(clientId, nonce, nowMs);
    }

    /** What `consume` does once the table is purged. */
    method TryAdd(clientId: Text, nonce: Text, nowMs: int) returns (accepted: bool)
      requires Valid()
      modifies this
      ensures Valid()
      ensures accepted == (
        && Key(clientId, nonce) !in old(contents)
        && (clientId in old(nonces) || |old(nonces)| < limits.clients)
        && (if clientId in old(nonces) then |old(nonces)[clientId]| else 0) < limits.perClient)
      ensures contents == if accepted then old(contents)[Key(clientId, nonce) := nowMs + limits.ttlMs] else old(contents)
    {
      if clientId !in nonces {
        if |nonces| >= limits.clients {
          return false;
        }
        nonces := nonces[clientId := map[]];
      }
      var clientNonces := nonces[clientId];
      if nonce in clientNonces {
        return false;
      }
      if |clientNonces| >= limits.perClient {
        return false;
      }
      nonces := nonces[clientId := clientNonces[nonce := nowMs + limits.ttlMs]];
      contents := contents[Key(clientId, nonce) := nowMs + limits.ttlMs];
      return true;
    }

    method Revoke(clientId: Text)
      requires Valid()
      modifies this
      ensures Valid() && contents == Revoked(old(contents), clientId)
    {
      nonces := nonces - {clientId};
      contents := Revoked(contents, clientId);
    }
  }
}
