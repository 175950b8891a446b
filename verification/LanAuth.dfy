/** Signed requests: the canonical text that is signed, its verification, and replay over whole runs. */
module LanAuth {
  import opened Options
  import opened Bytes
  import opened Json
  import opened ReplayGuard

  const NEWLINE: Unit := 0x0A

  // ---- Field syntax ----

  predicate IsUpper(u: Unit) { 0x41 <= u <= 0x5A }

  predicate IsLower(u: Unit) { 0x61 <= u <= 0x7A }

  /** `[A-Za-z0-9_-]` */
  predicate IsToken(u: Unit) { IsUpper(u) || IsLower(u) || IsDigit(u) || u == 0x5F || u == 0x2D }

  predicate TokenText(s: Text, length: nat) { |s| == length && forall i :: 0 <= i < |s| ==> IsToken(s[i]) }

  predicate MethodText(s: Text) { 3 <= |s| <= 7 && forall i :: 0 <= i < |s| ==> IsUpper(s[i]) }

  predicate PathnameText(s: Text)
  {
    && 0 < |s| <= 2048 && s[0] == 0x2F
    && forall i :: 0 <= i < |s| ==> s[i] > 0x1F && s[i] !in {0x7F, 0x3F, 0x23, 0x25}
  }

  predicate TimestampText(s: Text)
  {
    && 1 <= |s| <= 13
    && (forall i :: 0 <= i < |s| ==> IsDigit(s[i]))
    && (s[0] == 0x30 ==> |s| == 1)
  }

  /** Position of a character in the base64url alphabet. */
  function Base64Value(u: Unit): nat
  {
    if IsUpper(u) then u - 0x41
    else if IsLower(u) then u - 0x61 + 26
    else if IsDigit(u) then u - 0x30 + 52
    else if u == 0x2D then 62
    else 63
  }

  /** 43 base64url characters that spell exactly 32 octets: the last one carries no stray bits. */
  predicate SecretText(s: Text) { TokenText(s, 43) && Base64Value(s[42]) % 4 == 0 }

  function Power10(k: nat): (p: nat)
    ensures p > 0
  {
    if k == 0 then 1 else 10 * Power10(k - 1)
  }

  /** A number below 10^k has at most k digits, and no leading zero unless it is zero. */
  lemma {:induction false} DigitsOf(n: nat, k: nat)
    requires k > 0
    ensures |Decimal(n)| <= k <==> n < Power10(k)
    ensures Decimal(n)[0] == 0x30 ==> n == 0
  {
    if n >= 10 {
      if k > 1 {
        DigitsOf(n / 10, k - 1);
      } else {
        DigitsOf(n / 10, 1);
        assert Power10(1) == 10 by {
          assert Power10(0) == 1;
        }
      }
    } else {
      TenAtLeast(k);
    }
  }

  lemma {:induction false} TenAtLeast(k: nat)
    requires k > 0
    ensures Power10(k) >= 10
  {
    if k > 1 {
      TenAtLeast(k - 1);
    }
  }

  lemma Power13()
    ensures Power10(13) == 10_000_000_000_000
  {
    Power12();
  }

  lemma Power12()
    ensures Power10(12) == 1_000_000_000_000
  {
    assert Power10(0) == 1 && Power10(1) == 10 && Power10(2) == 100 && Power10(3) == 1000;
    assert Power10(4) == 10_000 && Power10(5) == 100_000 && Power10(6) == 1_000_000;
    assert Power10(7) == 10_000_000 && Power10(8) == 100_000_000 && Power10(9) == 1_000_000_000;
    assert Power10(10) == 10_000_000_000 && Power10(11) == 100_000_000_000;
  }

  lemma ZeroIsOneDigit()
    ensures |Decimal(0)| == 1
  {
  }

  /** A timestamp is accepted exactly if it is the decimal text of a number below 10^13. */
  lemma TimestampInTerms(s: Text)
    ensures TimestampText(s) <==> exists n: nat :: n < 10_000_000_000_000 && s == Decimal(n)
  {
    hide Decimal;
    Power13();
    if TimestampText(s) {
      DecimalOfDigits(s);
      DigitsOf(ReadDigits(s, 0).0, 13);
    }
    if n: nat :| n < 10_000_000_000_000 && s == Decimal(n) {
      DigitsOf(n, 13);
      if s[0] == 0x30 {
        ZeroIsOneDigit();
      }
    }
  }

  // ---- The canonical text ----

  datatype Request = Request(clientId: Text, verb: Text, pathname: Text, timestamp: Text, nonce: Text,
                             contentLength: int, contentSha256: Text)

  /** "ELCAUTH1" */
  const AUTH_TAG: Text := [0x45, 0x4C, 0x43, 0x41, 0x55, 0x54, 0x48, 0x31]

  predicate WellFormed(r: Request)
  {
    && TokenText(r.clientId, 43)
    && MethodText(r.verb)
    && PathnameText(r.pathname)
    && TimestampText(r.timestamp)
    && TokenText(r.nonce, 22)
    && 0 <= r.contentLength <= MAX_SAFE_INTEGER
    && HexText(r.contentSha256)
  }

  function Lines(fields: seq<Text>): Text
    requires |fields| > 0
  {
    if |fields| == 1 then fields[0] else fields[0] + [NEWLINE] + Lines(fields[1..])
  }

  function Fields(r: Request): seq<Text>
    requires r.contentLength >= 0
  {
    [AUTH_TAG, r.clientId, r.verb, r.pathname, r.timestamp, r.nonce, Decimal(r.contentLength), r.contentSha256]
  }

  /** `canonicalizeAuthInput` */
  function Canonicalize(r: Request): Option<Text>
  {
    if WellFormed(r) then Some(Lines(Fields(r))) else None
  }

  lemma {:induction false} LinesUnique(f: seq<Text>, g: seq<Text>)
    requires |f| == |g| > 0 && Lines(f) == Lines(g)
    requires forall i :: 0 <= i < |f| ==> NEWLINE !in f[i] && NEWLINE !in g[i]
    ensures f == g
  {
    if |f| > 1 {
      SeparatedUnique(NEWLINE, f[0], g[0], Lines(f[1..]), Lines(g[1..]));
      LinesUnique(f[1..], g[1..]);
      assert f == [f[0]] + f[1..] && g == [g[0]] + g[1..];
    }
  }

  lemma FieldsAreLines(r: Request)
    requires WellFormed(r)
    ensures forall i :: 0 <= i < 8 ==> NEWLINE !in Fields(r)[i]
  {
    hide Decimal;
    assert NEWLINE !in r.clientId && NEWLINE !in r.nonce;
    assert NEWLINE !in r.verb && NEWLINE !in r.pathname;
    assert NEWLINE !in r.timestamp && NEWLINE !in r.contentSha256;
    assert NEWLINE !in Decimal(r.contentLength);
    assert NEWLINE !in AUTH_TAG;
  }

  /** What is signed determines the request: no two requests share a canonical text. */
  lemma CanonicalIsInjective(r: Request, s: Request)
    requires Canonicalize(r).Some? && Canonicalize(r) == Canonicalize(s)
    ensures r == s
  {
    FieldsAreLines(r);
    FieldsAreLines(s);
    hide Decimal, WellFormed, Lines;
    LinesUnique(Fields(r), Fields(s));
    var f, g := Fields(r), Fields(s);
    assert f[1] == g[1] && f[2] == g[2] && f[3] == g[3] && f[4] == g[4] && f[5] == g[5] && f[6] == g[6] && f[7] == g[7];
    DecimalUnique(r.contentLength, s.contentLength, [], []);
  }

  // ---- Verification ----

  /** The keyed hash of RFC 2104, as its lower-case hexadecimal text. */
  type Mac = (Text, Text) -> Text

  /** `Number(timestamp)` on the digits the syntax admits. */
  function Seconds(timestamp: Text): nat { ReadDigits(timestamp, 0).0 }

  predicate InWindow(timestamp: Text, nowMs: int, skew: int)
  {
    -skew <= nowMs / 1000 - Seconds(timestamp) <= skew
  }

  predicate Signed(r: Request, signature: Text, secret: Text, mac: Mac)
  {
    && WellFormed(r) && SecretText(secret) && HexText(signature)
    && signature == mac(secret, Lines(Fields(r)))
  }

  /** `verifyAuthHeaders`: everything but the replay guard is a check; the guard is asked last. */
  method VerifyAuthHeaders(r: Request, signature: Text, secret: Text, nowMs: int, skew: int, mac: Mac,
                           guard: NonceReplayGuard)
    returns (accepted: bool)
    requires guard.Valid()
    modifies guard
    ensures guard.Valid()
    ensures accepted ==
      (Signed(r, signature, secret, mac) && InWindow(r.timestamp, nowMs, skew)
       && Admits(Alive(old(guard.contents), nowMs), r.clientId, r.nonce, guard.limits))
    ensures guard.contents ==
      if Signed(r, signature, secret, mac) && InWindow(r.timestamp, nowMs, skew)
      then Consumed(old(guard.contents), r.clientId, r.nonce, nowMs, guard.limits)
      else old(guard.contents)
  {
    hide WellFormed, SecretText, HexText, Lines, Fields, Admits, Consumed, Alive, Represents;
    var canonical := Canonicalize(r);
    if canonical.None? {
      return false;
    }
    var apart := nowMs / 1000 - Seconds(r.timestamp);
    if (if apart < 0 then -apart else apart) > skew || !HexText(signature) {
      return false;
    }
    if !SecretText(secret) || mac(secret, canonical.value) != signature {
      return false;
    }
    accepted := guard.Consume(r.clientId, r.nonce, nowMs);
  }

  // ---- Signing ----

  /** `createAuthHeaders`: the request with its timestamp as text, and its signature. */
  function CreateAuth(clientId: Text, secret: Text, verb: Text, pathname: Text, contentLength: int, contentSha256: Text,
                      timestamp: nat, nonce: Text, mac: Mac): Option<(Request, Text)>
  {
    var r := Request(clientId, verb, pathname, Decimal(timestamp), nonce, contentLength, contentSha256);
    var canonical :- Canonicalize(r);
    if SecretText(secret) then Some((r, mac(secret, canonical))) else None
  }

  /** A request can be signed exactly in these terms: characters, lengths and ranges. */
  lemma SignableInTerms(clientId: Text, secret: Text, verb: Text, pathname: Text, contentLength: int, contentSha256: Text,
                        timestamp: nat, nonce: Text, mac: Mac)
    ensures CreateAuth(clientId, secret, verb, pathname, contentLength, contentSha256, timestamp, nonce, mac).Some? <==>
      && |clientId| == 43 && (forall i :: 0 <= i < 43 ==> IsToken(clientId[i]))
      && |nonce| == 22 && (forall i :: 0 <= i < 22 ==> IsToken(nonce[i]))
      && SecretText(secret)
      && 3 <= |verb| <= 7 && (forall i :: 0 <= i < |verb| ==> 0x41 <= verb[i] <= 0x5A)
      && 1 <= |pathname| <= 2048 && pathname[0] == 0x2F
      && (forall i :: 0 <= i < |pathname| ==>
            0x20 <= pathname[i] && pathname[i] != 0x7F && pathname[i] != 0x3F && pathname[i] != 0x23 && pathname[i] != 0x25)
      && 0 <= contentLength < 0x20_0000_0000_0000
      && |contentSha256| == 64
      && (forall i :: 0 <= i < 64 ==> 0x30 <= contentSha256[i] <= 0x39 || 0x61 <= contentSha256[i] <= 0x66)
      && timestamp < 10_000_000_000_000
  {
    hide Lines, Fields, Decimal, TimestampText;
    TimestampInTerms(Decimal(timestamp));
    Power13();
    DigitsOf(timestamp, 13);
    SameNumber(timestamp);
  }

  lemma SameNumber(n: nat)
    ensures forall m: nat :: Decimal(m) == Decimal(n) ==> m == n
  {
    forall m: nat | Decimal(m) == Decimal(n) ensures m == n {
      DecimalUnique(m, n, [], []);
    }
  }

  /** What was signed verifies with the same secret, on the server's clock, exactly within the skew of its timestamp. */
  lemma SignedVerifies(clientId: Text, secret: Text, verb: Text, pathname: Text, contentLength: int, contentSha256: Text,
                       timestamp: nat, nonce: Text, mac: Mac, nowMs: int, setup: Setup)
    requires forall k, a :: HexText(mac(k, a))
    requires CreateAuth(clientId, secret, verb, pathname, contentLength, contentSha256, timestamp, nonce, mac).Some?
    requires setup.mac == mac
    ensures var (r, signature) :=
              CreateAuth(clientId, secret, verb, pathname, contentLength, contentSha256, timestamp, nonce, mac).value;
            Checked(Verify(r, signature, secret, nowMs), setup) <==>
              timestamp - setup.skew <= nowMs / 1000 <= timestamp + setup.skew
  {
    hide Lines, Fields, Decimal, WellFormed, SecretText, HexText;
    ReadDecimal(timestamp, []);
    assert Decimal(timestamp) + [] == Decimal(timestamp);
  }

  // ---- Runs ----

  datatype Event = Verify(request: Request, signature: Text, secret: Text, nowMs: int) | Revoke(clientId: Text)

  datatype Setup = Setup(limits: Limits, skew: nat, mac: Mac)

  predicate Checked(e: Event, setup: Setup)
  {
    e.Verify? && Signed(e.request, e.signature, e.secret, setup.mac) && InWindow(e.request.timestamp, e.nowMs, setup.skew)
  }

  function After(live: Live, e: Event, setup: Setup): Live
  {
    if e.Revoke? then Revoked(live, e.clientId)
    else if Checked(e, setup) then Consumed(live, e.request.clientId, e.request.nonce, e.nowMs, setup.limits)
    else live
  }

  function StateAt(run: seq<Event>, k: nat, setup: Setup): Live
    requires k <= |run|
  {
    if k == 0 then map[] else After(StateAt(run, k - 1, setup), run[k - 1], setup)
  }

  predicate Succeeds(run: seq<Event>, k: nat, setup: Setup)
    requires k < |run|
  {
    && Checked(run[k], setup)
    && Admits(Alive(StateAt(run, k, setup), run[k].nowMs), run[k].request.clientId, run[k].request.nonce, setup.limits)
  }

  predicate ClockNeverGoesBack(run: seq<Event>)
  {
    forall i, j :: 0 <= i <= j < |run| && run[i].Verify? && run[j].Verify? ==> run[i].nowMs <= run[j].nowMs
  }

  predicate RevokedBetween(run: seq<Event>, i: nat, j: nat, client: Text)
    requires j <= |run|
  {
    exists k :: i < k < j && run[k] == Revoke(client)
  }

  /** An accepted nonce stays in the guard until it expires. */
  lemma {:induction false} NonceIsRemembered(run: seq<Event>, i: nat, k: nat, setup: Setup)
    requires i < k <= |run| && Succeeds(run, i, setup)
    requires !RevokedBetween(run, i, k, run[i].request.clientId)
    requires forall m :: i <= m < k && run[m].Verify? ==> run[m].nowMs < run[i].nowMs + setup.limits.ttlMs
    ensures var key := Key(run[i].request.clientId, run[i].request.nonce);
            key in StateAt(run, k, setup) && StateAt(run, k, setup)[key] == run[i].nowMs + setup.limits.ttlMs
    decreases k
  {
    hide ClientsOf, KeysOf, Signed, InWindow;
    if k > i + 1 {
      NonceIsRemembered(run, i, k - 1, setup);
    }
  }

  /** Two times in the window of one timestamp are less than twice the skew plus a second apart. */
  lemma WindowIsNarrow(timestamp: Text, t: int, u: int, skew: int)
    requires InWindow(timestamp, t, skew) && InWindow(timestamp, u, skew)
    ensures u < t + (2 * skew + 1) * 1000
  {
  }

  predicate Outlives(setup: Setup) { setup.limits.ttlMs >= (2 * setup.skew + 1) * 1000 }

  /** No request succeeds twice: same client, nonce and timestamp. */
  lemma NoReplay(run: seq<Event>, i: nat, j: nat, setup: Setup)
    requires Outlives(setup) && ClockNeverGoesBack(run)
    requires i < j < |run| && Succeeds(run, i, setup) && Succeeds(run, j, setup)
    requires !RevokedBetween(run, i, j, run[i].request.clientId)
    ensures (run[i].request.clientId, run[i].request.nonce, run[i].request.timestamp)
         != (run[j].request.clientId, run[j].request.nonce, run[j].request.timestamp)
  {
    if run[i].request.timestamp == run[j].request.timestamp {
      WindowIsNarrow(run[i].request.timestamp, run[i].nowMs, run[j].nowMs, setup.skew);
      hide Signed, InWindow, StateAt;
      NonceIsRemembered(run, i, j, setup);
    }
  }

  /** With a collision-free keyed hash, a recorded signature never works a second time. */
  lemma SignatureWorksOnce(run: seq<Event>, i: nat, j: nat, setup: Setup)
    requires forall k, a, l, b :: setup.mac(k, a) == setup.mac(l, b) ==> a == b
    requires Outlives(setup) && ClockNeverGoesBack(run)
    requires i < j < |run| && Succeeds(run, i, setup) && Succeeds(run, j, setup)
    requires !RevokedBetween(run, i, j, run[i].request.clientId)
    ensures run[i].signature != run[j].signature
  {
    hide WellFormed, Lines, Fields, StateAt, InWindow, Admits, ClockNeverGoesBack, RevokedBetween;
    NoReplay(run, i, j, setup);
    if run[i].signature == run[j].signature {
      CanonicalIsInjective(run[i].request, run[j].request);
    }
  }

  ghost predicate ReplayFree(setup: Setup)
  {
    forall run: seq<Event>, i: nat, j: nat ::
      (i < j < |run| && ClockNeverGoesBack(run) && Succeeds(run, i, setup) && Succeeds(run, j, setup)
       && !RevokedBetween(run, i, j, run[i].request.clientId)) ==> run[i].request != run[j].request
  }

  /** The same request at the first and the last moment its timestamp is accepted. */
  function Twice(r: Request, signature: Text, secret: Text, skew: nat): seq<Event>
  {
    [ Verify(r, signature, secret, (Seconds(r.timestamp) - skew) * 1000),
      Verify(r, signature, secret, (Seconds(r.timestamp) + skew) * 1000 + 999) ]
  }

  lemma TwiceSucceeds(r: Request, signature: Text, secret: Text, setup: Setup)
    requires Signed(r, signature, secret, setup.mac) && setup.limits.perClient > 0 && setup.limits.clients > 0
    requires !Outlives(setup)
    ensures var run := Twice(r, signature, secret, setup.skew);
            ClockNeverGoesBack(run) && Succeeds(run, 0, setup) && Succeeds(run, 1, setup)
  {
    hide Signed, Seconds;
    var run := Twice(r, signature, secret, setup.skew);
    assert Checked(run[0], setup) && Checked(run[1], setup);
    var key := Key(r.clientId, r.nonce);
    assert KeysOf(map[], r.clientId) == {} && ClientsOf(map[]) == {};
    assert Alive(map[], run[0].nowMs) == map[];
    assert StateAt(run, 1, setup) == map[key := run[0].nowMs + setup.limits.ttlMs] by {
      assert StateAt(run, 0, setup) == map[];
    }
    assert Alive(StateAt(run, 1, setup), run[1].nowMs) == map[];
  }

  /** Runs are replay-free exactly when a nonce outlives the whole window of its timestamp. */
  lemma ReplayFreeIffOutlives(r: Request, signature: Text, secret: Text, setup: Setup)
    requires Signed(r, signature, secret, setup.mac) && setup.limits.perClient > 0 && setup.limits.clients > 0
    ensures ReplayFree(setup) <==> Outlives(setup)
  {
    hide Signed, StateAt, Admits;
    if Outlives(setup) {
      forall run: seq<Event>, i: nat, j: nat |
        i < j < |run| && ClockNeverGoesBack(run) && Succeeds(run, i, setup) && Succeeds(run, j, setup)
        && !RevokedBetween(run, i, j, run[i].request.clientId)
        ensures run[i].request != run[j].request
      {
        NoReplay(run, i, j, setup);
      }
    } else {
      TwiceSucceeds(r, signature, secret, setup);
      var run := Twice(r, signature, secret, setup.skew);
      assert !RevokedBetween(run, 0, 1, r.clientId);
      assert run[0].request == run[1].request;
    }
  }

  /** The code's own settings: five minutes against a minute of skew. */
  lemma DefaultsOutlive(mac: Mac)
    ensures Outlives(Setup(Limits(5 * 60_000, 2048, 128), 60, mac))
  {
  }
}
