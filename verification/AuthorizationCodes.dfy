/**
 The authorization-code endpoint of the synthetic OIDC provider: codes are
 issued, pruned, taken once and redeemed.  It implements sections 4.1.2 and
 4.1.3 of RFC 6749 with the PKCE check of section 4.6 of RFC 7636; the S256
 transformation is the configuration's `challengeOf`.
 */
module AuthorizationCodes {
  import opened Wrappers

  const MAX_OUTSTANDING_CODES: nat := 256
  const CODE_TTL_SECONDS: real := 120.0
  const TOKEN_TTL_SECONDS: int := 600

  datatype Config = Config(clientId: string, clientSecret: string, redirectUri: string, challengeOf: string -> string)

  datatype Record = Record(clientId: string, redirectUri: string, nonce: string, challenge: string, issuedAt: real)

  type Codes = map<string, Record>

  /** `Unreadable` stands for a parameter that is missing, repeated or out of bounds. */
  datatype AuthorizeRequest =
    | UnreadableQuery
    | Authorize(responseType: string, clientId: string, redirectUri: string, scopes: seq<string>,
                nonce: string, challenge: string, challengeMethod: string)

  /** An authorization request that could be read, and when it was granted a code. */
  type Readout = q: AuthorizeRequest | q.Authorize? witness Authorize("", "", "", [], "", "", "")
  datatype Handout = Handout(request: Readout, at: real)

  datatype TokenRequest =
    | WrongContentType
    | UnreadableCredentials
    | Exchange(clientId: string, clientSecret: string, form: Option<Form>)

  datatype Form = Form(grantType: string, code: string, redirectUri: string, verifier: string, clientIds: Option<seq<string>>)

  /** `Raised` is a request whose handler raised and answered nothing. */
  datatype Response =
    | Error(status: int, error: string)
    | Redirect(code: string)
    | Tokens(nonce: string, issuedAt: int, expiresAt: int)
    | Raised

  const INVALID_REQUEST := Error(400, "invalid_request")
  const UNAUTHORIZED_CLIENT := Error(400, "unauthorized_client")
  const INVALID_CLIENT := Error(401, "invalid_client")
  const INVALID_GRANT := Error(400, "invalid_grant")
  const TEMPORARILY_UNAVAILABLE := Error(503, "temporarily_unavailable")

  predicate IsUnreserved(c: char) {
    'A' <= c <= 'Z' || 'a' <= c <= 'z' || '0' <= c <= '9' || c == '.' || c == '_' || c == '~' || c == '-'
  }

  predicate IsVerifier(s: string) {
    43 <= |s| <= 128 && forall i :: 0 <= i < |s| ==> IsUnreserved(s[i])
  }

  predicate IsChallenge(s: string) {
    |s| == 43 && forall i :: 0 <= i < |s| ==> IsUnreserved(s[i]) && s[i] != '.' && s[i] != '~'
  }

  predicate ValidPkce(cfg: Config, verifier: string, challenge: string) {
    IsVerifier(verifier) && cfg.challengeOf(verifier) == challenge
  }

  // ------------------------------------------------------------------
  // The two endpoints, section by section
  // ------------------------------------------------------------------

  predicate IsAscii(s: string) { forall i :: 0 <= i < |s| ==> s[i] as int < 128 }

  /** The constant-time comparison raises on text outside ASCII. */
  predicate Comparable(a: string, b: string) { IsAscii(a) && IsAscii(b) }

  /** What `_authorize` refuses before it reads the clock. */
  function AuthorizeRefusal(cfg: Config, q: AuthorizeRequest): (r: Option<Response>)
    ensures if r.None? then q.Authorize? else r.value.Error? || r.value.Raised?
  {
    if q.UnreadableQuery? then Some(INVALID_REQUEST)
    else if q.responseType != "code" then Some(UNAUTHORIZED_CLIENT)
    else if !Comparable(q.clientId, cfg.clientId) then Some(Raised)
    else if q.clientId != cfg.clientId then Some(UNAUTHORIZED_CLIENT)
    else if q.redirectUri != cfg.redirectUri then Some(INVALID_REQUEST)
    else if "openid" !in q.scopes then Some(Error(400, "invalid_scope"))
    else if q.challengeMethod != "S256" || !IsChallenge(q.challenge) then Some(INVALID_REQUEST)
    else None
  }

  /** What `_token` refuses before it reads the clock. */
  function TokenRefusal(cfg: Config, q: TokenRequest): (r: Option<Response>)
    ensures if r.None? then Readable(q) else r.value.Error? || r.value.Raised?
  {
    match q
    case WrongContentType => Some(INVALID_REQUEST)
    case UnreadableCredentials => Some(INVALID_CLIENT)
    case Exchange(clientId, clientSecret, form) =>
      if !Comparable(clientId, cfg.clientId) then Some(Raised)
      else if clientId != cfg.clientId then Some(INVALID_CLIENT)
      else if !Comparable(clientSecret, cfg.clientSecret) then Some(Raised)
      else if clientSecret != cfg.clientSecret then Some(INVALID_CLIENT)
      else
        match form
        case None => Some(INVALID_REQUEST)
        case Some(f) =>
          if f.clientIds.Some? && f.clientIds.value != [clientId] then Some(INVALID_CLIENT)
          else if f.grantType != "authorization_code" then Some(Error(400, "unsupported_grant_type"))
          else None
  }

  predicate Expired(now: real, r: Record) {
    now - r.issuedAt > CODE_TTL_SECONDS
  }

  function Pruned(codes: Codes, now: real): Codes {
    map c | c in codes && !Expired(now, codes[c]) :: codes[c]
  }

  function RecordFor(q: AuthorizeRequest, now: real): Record
    requires q.Authorize?
  {
    Record(q.clientId, q.redirectUri, q.nonce, q.challenge, now)
  }

  /** The locked section of `_authorize`: prune, then issue unless full. */
  function Issue(codes: Codes, q: AuthorizeRequest, now: real, code: string): (Codes, Response)
    requires q.Authorize?
  {
    var kept := Pruned(codes, now);
    if |kept| >= MAX_OUTSTANDING_CODES then (kept, TEMPORARILY_UNAVAILABLE)
    else (kept[code := RecordFor(q, now)], Redirect(code))
  }

  /** The locked section of `_token`: a code leaves the table whatever follows. */
  function Take(codes: Codes, code: string): (Codes, Option<Record>) {
    (codes - {code}, if code in codes then Some(codes[code]) else None)
  }

  predicate Readable(q: TokenRequest) {
    q.Exchange? && q.form.Some?
  }

  predicate Redeemable(cfg: Config, r: Record, q: TokenRequest, now: real)
    requires Readable(q)
  {
    && !Expired(now, r)
    && r.clientId == q.clientId
    && r.redirectUri == q.form.value.redirectUri
    && ValidPkce(cfg, q.form.value.verifier, r.challenge)
  }

  function CodeOf(q: TokenRequest): string {
    if Readable(q) then q.form.value.code else ""
  }

  // ------------------------------------------------------------------
  // What passes the checks
  // ------------------------------------------------------------------

  /** The exchange presents the configured client's credentials and the code grant type. */
  predicate Authenticated(cfg: Config, q: TokenRequest) {
    Readable(q) && q.clientId == cfg.clientId && q.clientSecret == cfg.clientSecret && q.form.value.grantType == "authorization_code"
  }

  /** The form may repeat the client identifier once; it need not. */
  predicate Exchangeable(cfg: Config, q: TokenRequest) {
    && Authenticated(cfg, q) && IsAscii(cfg.clientId) && IsAscii(cfg.clientSecret)
    && (q.form.value.clientIds.None? || q.form.value.clientIds.value == [cfg.clientId])
  }

  /** The authorization is for the configured client and redirect URI, with a well-formed S256 challenge. */
  predicate Permitted(cfg: Config, q: AuthorizeRequest) {
    && q.Authorize? && q.clientId == cfg.clientId && q.redirectUri == cfg.redirectUri && "openid" in q.scopes
    && q.challengeMethod == "S256" && IsChallenge(q.challenge)
  }

  predicate Authorizable(cfg: Config, q: AuthorizeRequest) {
    Permitted(cfg, q) && q.responseType == "code" && IsAscii(cfg.clientId)
  }

  /** Exactly the exchangeable requests pass, and what the others are told. */
  lemma TokenRefusalExactly(cfg: Config, q: TokenRequest)
    ensures TokenRefusal(cfg, q).None? <==> Exchangeable(cfg, q)
    ensures q.WrongContentType? ==> TokenRefusal(cfg, q) == Some(Error(400, "invalid_request"))
    ensures q.UnreadableCredentials? ==> TokenRefusal(cfg, q) == Some(Error(401, "invalid_client"))
    ensures q.Exchange? && IsAscii(q.clientId) && IsAscii(cfg.clientId) && IsAscii(q.clientSecret) && IsAscii(cfg.clientSecret) ==>
              && (q.clientId != cfg.clientId || q.clientSecret != cfg.clientSecret ==>
                    TokenRefusal(cfg, q) == Some(Error(401, "invalid_client")))
              && (q.clientId == cfg.clientId && q.clientSecret == cfg.clientSecret ==>
                    && (q.form.None? ==> TokenRefusal(cfg, q) == Some(Error(400, "invalid_request")))
                    && (q.form.Some? && q.form.value.clientIds.Some? && q.form.value.clientIds.value != [q.clientId] ==>
                          TokenRefusal(cfg, q) == Some(Error(401, "invalid_client")))
                    && (q.form.Some? && (q.form.value.clientIds.Some? ==> q.form.value.clientIds.value == [q.clientId])
                        && q.form.value.grantType != "authorization_code" ==>
                          TokenRefusal(cfg, q) == Some(Error(400, "unsupported_grant_type"))))
  {
    hide IsAscii;
  }

  /** Exactly the authorizable requests pass; a foreign client, redirect URI or scope is told so. */
  lemma AuthorizeRefusalExactly(cfg: Config, q: AuthorizeRequest)
    ensures AuthorizeRefusal(cfg, q).None? <==> Authorizable(cfg, q)
    ensures q.UnreadableQuery? ==> AuthorizeRefusal(cfg, q) == Some(Error(400, "invalid_request"))
    ensures q.Authorize? && IsAscii(q.clientId) && IsAscii(cfg.clientId) ==>
              var known := q.responseType == "code" && q.clientId == cfg.clientId;
              && (!known ==> AuthorizeRefusal(cfg, q) == Some(Error(400, "unauthorized_client")))
              && (known && q.redirectUri != cfg.redirectUri ==> AuthorizeRefusal(cfg, q) == Some(Error(400, "invalid_request")))
              && (known && q.redirectUri == cfg.redirectUri && "openid" !in q.scopes ==>
                    AuthorizeRefusal(cfg, q) == Some(Error(400, "invalid_scope")))
              && (known && q.redirectUri == cfg.redirectUri && "openid" in q.scopes && !Permitted(cfg, q) ==>
                    AuthorizeRefusal(cfg, q) == Some(Error(400, "invalid_request")))
  {
    hide IsAscii, IsChallenge;
  }

  function Truncate(x: real): int {
    if x >= 0.0 then x.Floor else -((-x).Floor)
  }

  function TokensFor(r: Record, now: real): Response {
    Tokens(r.nonce, Truncate(now), Truncate(now) + TOKEN_TTL_SECONDS)
  }

  /** The unlocked tail of `_token`. */
  function Redeem(cfg: Config, taken: Option<Record>, q: TokenRequest, now: real): Response
    requires Readable(q)
  {
    if taken.None? || !Redeemable(cfg, taken.value, q, now) then INVALID_GRANT
    else TokensFor(taken.value, now)
  }

  // ------------------------------------------------------------------
  // One request at a time
  // ------------------------------------------------------------------

  datatype Request =
    | AuthorizeCall(authorize: AuthorizeRequest, now: real, code: string)
    | TokenCall(exchange: TokenRequest, now: real)

  function Serve(cfg: Config, codes: Codes, r: Request): (Codes, Response) {
    match r
    case AuthorizeCall(q, now, code) =>
      var refusal := AuthorizeRefusal(cfg, q);
      if refusal.Some? then (codes, refusal.value) else Issue(codes, q, now, code)
    case TokenCall(q, now) =>
      var refusal := TokenRefusal(cfg, q);
      if refusal.Some? then (codes, refusal.value)
      else
        var (left, taken) := Take(codes, q.form.value.code);
        (left, Redeem(cfg, taken, q, now))
  }

  class Provider {
    const config: Config
    var codes: Codes

    constructor (config: Config)
      ensures this.config == config && codes == map[]
    {
      this.config := config;
      codes := map[];
    }

    method PruneCodes(now: real)
      modifies this
      ensures codes == Pruned(old(codes), now)
    {
      var expired := set c | c in codes && Expired(now, codes[c]);
      ghost var all := expired;
      while expired != {}
        invariant expired <= all
        invariant codes == old(codes) - (all - expired)
        decreases expired
      {
        var c :| c in expired;
        codes := codes - {c};
        expired := expired - {c};
      }
    }

    /** `now` is the clock reading and `code` the random token of this request. */
    method Authorize(q: AuthorizeRequest, now: real, code: string) returns (r: Response)
      modifies this
      ensures (codes, r) == Serve(config, old(codes), AuthorizeCall(q, now, code))
    {
      var refusal := AuthorizeRefusal(config, q);
      if refusal.Some? {
        return refusal.value;
      }
      PruneCodes(now);
      if |codes| >= MAX_OUTSTANDING_CODES {
        return TEMPORARILY_UNAVAILABLE;
      }
      codes := codes[code := RecordFor(q, now)];
      return Redirect(code);
    }

    method Token(q: TokenRequest, now: real) returns (r: Response)
      modifies this
      ensures (codes, r) == Serve(config, old(codes), TokenCall(q, now))
    {
      var refusal := TokenRefusal(config, q);
      if refusal.Some? {
        return refusal.value;
      }
      var code := q.form.value.code;
      var taken := if code in codes then Some(codes[code]) else None;
      codes := codes - {code};
      return Redeem(config, taken, q, now);
    }
  }

  // ------------------------------------------------------------------
  // Pruning is unobservable
  // ------------------------------------------------------------------

  /** The reference: nothing is ever pruned; only unexpired codes count against the limit. */
  function ServeUnpruned(cfg: Config, all: Codes, r: Request): (Codes, Response) {
    match r
    case AuthorizeCall(q, now, code) =>
      var refusal := AuthorizeRefusal(cfg, q);
      if refusal.Some? then (all, refusal.value)
      else if |set c | c in all && now - all[c].issuedAt <= CODE_TTL_SECONDS| >= MAX_OUTSTANDING_CODES
      then (all, TEMPORARILY_UNAVAILABLE)
      else (all[code := RecordFor(q, now)], Redirect(code))
    case TokenCall(_, _) => Serve(cfg, all, r)
  }

  /** The table after a sequential run from the empty provider. */
  function After(cfg: Config, requests: seq<Request>): Codes {
    if requests == [] then map[]
    else Serve(cfg, After(cfg, requests[..|requests| - 1]), requests[|requests| - 1]).0
  }

  /** The reference's table after the same run. */
  function AfterUnpruned(cfg: Config, requests: seq<Request>): Codes {
    if requests == [] then map[]
    else ServeUnpruned(cfg, AfterUnpruned(cfg, requests[..|requests| - 1]), requests[|requests| - 1]).0
  }

  ghost predicate ClockNeverGoesBack(requests: seq<Request>) {
    forall i, j :: 0 <= i < j < |requests| ==> requests[i].now <= requests[j].now
  }

  /** The table holds the reference's codes, less some that had expired by `now`. */
  ghost predicate LacksOnlyExpired(codes: Codes, all: Codes, now: real) {
    && (forall c :: c in codes ==> c in all && codes[c] == all[c])
    && (forall c :: c in all && c !in codes ==> Expired(now, all[c]))
  }

  lemma ServeHidesPruning(cfg: Config, codes: Codes, all: Codes, since: real, r: Request)
    requires LacksOnlyExpired(codes, all, since) && since <= r.now
    ensures Serve(cfg, codes, r).1 == ServeUnpruned(cfg, all, r).1
    ensures LacksOnlyExpired(Serve(cfg, codes, r).0, ServeUnpruned(cfg, all, r).0, r.now)
  {
    hide AuthorizeRefusal, TokenRefusal, Redeem, LacksOnlyExpired;
    if r.AuthorizeCall? {
      SamePruned(codes, all, since, r.now);
      StillLacksOnlyExpired(codes, all, since, r.now);
      if AuthorizeRefusal(cfg, r.authorize).None? {
        BothAdd(Pruned(codes, r.now), all, r.now, r.code, RecordFor(r.authorize, r.now));
      }
    } else if TokenRefusal(cfg, r.exchange).None? {
      BothTake(cfg, codes, all, since, r.exchange, r.now);
    } else {
      StillLacksOnlyExpired(codes, all, since, r.now);
    }
  }

  lemma StillLacksOnlyExpired(codes: Codes, all: Codes, since: real, now: real)
    requires LacksOnlyExpired(codes, all, since) && since <= now
    ensures LacksOnlyExpired(codes, all, now) && LacksOnlyExpired(Pruned(codes, now), all, now)
  {}

  /** The codes left after pruning are the reference's unexpired ones. */
  lemma SamePruned(codes: Codes, all: Codes, since: real, now: real)
    requires LacksOnlyExpired(codes, all, since) && since <= now
    ensures |Pruned(codes, now)| == |set c | c in all && now - all[c].issuedAt <= CODE_TTL_SECONDS|
  {
    assert Pruned(codes, now).Keys == set c | c in all && now - all[c].issuedAt <= CODE_TTL_SECONDS;
  }

  lemma BothAdd(codes: Codes, all: Codes, now: real, code: string, record: Record)
    requires LacksOnlyExpired(codes, all, now)
    ensures LacksOnlyExpired(codes[code := record], all[code := record], now)
  {}

  /** A code that only the reference still has is too old to redeem. */
  lemma BothTake(cfg: Config, codes: Codes, all: Codes, since: real, q: TokenRequest, now: real)
    requires LacksOnlyExpired(codes, all, since) && since <= now && Readable(q)
    ensures var code := q.form.value.code;
            && Redeem(cfg, Take(codes, code).1, q, now) == Redeem(cfg, Take(all, code).1, q, now)
            && LacksOnlyExpired(Take(codes, code).0, Take(all, code).0, now)
  {
    hide ValidPkce;
  }

  lemma {:induction false} RunHidesPruning(cfg: Config, requests: seq<Request>, now: real)
    requires ClockNeverGoesBack(requests) && forall i :: 0 <= i < |requests| ==> requests[i].now <= now
    ensures LacksOnlyExpired(After(cfg, requests), AfterUnpruned(cfg, requests), now)
  {
    hide Serve, ServeUnpruned;
    if requests != [] {
      var before, r := requests[..|requests| - 1], requests[|requests| - 1];
      RunHidesPruning(cfg, before, r.now);
      ServeHidesPruning(cfg, After(cfg, before), AfterUnpruned(cfg, before), r.now, r);
    }
  }

  /** Under a nondecreasing clock every response is the one a provider that never prunes would give. */
  lemma PruningUnobservable(cfg: Config, requests: seq<Request>, r: Request)
    requires ClockNeverGoesBack(requests + [r])
    ensures Serve(cfg, After(cfg, requests), r).1 == ServeUnpruned(cfg, AfterUnpruned(cfg, requests), r).1
  {
    var all := requests + [r];
    assert forall i :: 0 <= i < |requests| ==> all[i] == requests[i] && all[|requests|] == r;
    RunHidesPruning(cfg, requests, r.now);
    ServeHidesPruning(cfg, After(cfg, requests), AfterUnpruned(cfg, requests), r.now, r);
  }

  // ------------------------------------------------------------------
  // When an exchange succeeds
  // ------------------------------------------------------------------

  /** The authorization for which `code` was last handed out, unless an authenticated exchange has taken it since. */
  function LastHandedOut(cfg: Config, requests: seq<Request>, code: string): Option<Handout> {
    if requests == [] then None
    else
      var before, r := requests[..|requests| - 1], requests[|requests| - 1];
      match r
      case AuthorizeCall(q, now, c) =>
        if c == code && Serve(cfg, After(cfg, before), r).1 == Redirect(c) && q.Authorize? then Some(Handout(q, now))
        else LastHandedOut(cfg, before, code)
      case TokenCall(q, _) =>
        if Exchangeable(cfg, q) && q.form.value.code == code then None
        else LastHandedOut(cfg, before, code)
  }

  function RecordOf(h: Handout): Record {
    RecordFor(h.request, h.at)
  }

  lemma {:induction false} ReferenceHoldsHandedOut(cfg: Config, requests: seq<Request>, code: string)
    requires ClockNeverGoesBack(requests)
    ensures var all, handed := AfterUnpruned(cfg, requests), LastHandedOut(cfg, requests, code);
            if code in all then handed.Some? && all[code] == RecordOf(handed.value) else handed.None?
  {
    if requests != [] {
      var before, r := requests[..|requests| - 1], requests[|requests| - 1];
      ReferenceHoldsHandedOut(cfg, before, code);
      assert before + [r] == requests;
      PruningUnobservable(cfg, before, r);
      ServeUpdatesReference(cfg, AfterUnpruned(cfg, before), r, code);
      hide After, Serve, ServeUnpruned, Exchangeable;
    }
  }

  /** The reference's entry for one code changes only when the code is handed out or taken. */
  lemma ServeUpdatesReference(cfg: Config, all: Codes, r: Request, code: string)
    ensures var (next, response) := ServeUnpruned(cfg, all, r);
            var was := if code in all then Some(all[code]) else None;
            (if code in next then Some(next[code]) else None)
            == match r
               case AuthorizeCall(q, now, c) =>
                 if c == code && response == Redirect(c) && q.Authorize? then Some(RecordFor(q, now)) else was
               case TokenCall(q, _) =>
                 if Exchangeable(cfg, q) && q.form.value.code == code then None else was
  {
    if r.TokenCall? {
      TokenRefusalExactly(cfg, r.exchange);
    }
    hide IsChallenge, Redeemable, TokenRefusal, Exchangeable, IsAscii;
  }

  /** What the exchange must show for the authorization: age, client, redirect URI and the verifier of its challenge. */
  predicate Matches(cfg: Config, h: Handout, q: TokenRequest, now: real)
    requires Readable(q)
  {
    && now <= h.at + 120.0
    && q.clientId == h.request.clientId
    && q.form.value.redirectUri == h.request.redirectUri
    && IsVerifier(q.form.value.verifier)
    && cfg.challengeOf(q.form.value.verifier) == h.request.challenge
  }

  /** `t` is `x` without its fraction. */
  predicate WholeSeconds(x: real, t: int) {
    if x >= 0.0 then t as real <= x < t as real + 1.0 else t as real - 1.0 < x <= t as real
  }

  /** The tokens of an authorization: its nonce, and ten minutes from the whole second of the exchange. */
  predicate TokensOf(h: Handout, now: real, r: Response) {
    r.Tokens? && r.nonce == h.request.nonce && WholeSeconds(now, r.issuedAt) && r.expiresAt == r.issuedAt + 600
  }

  lemma RedeemExactly(cfg: Config, h: Handout, q: TokenRequest, now: real)
    requires Readable(q)
    ensures var r := Redeem(cfg, Some(RecordOf(h)), q, now);
            if Matches(cfg, h, q, now) then TokensOf(h, now, r) else r == Error(400, "invalid_grant")
  {
    hide IsVerifier;
  }

  /**
   Under a nondecreasing clock an exchange answers tokens exactly when it is exchangeable,
   its code was handed out, has not been exchanged since, is at most 120 seconds old and
   passes every check; the tokens are those of that authorization.
   */
  lemma ExchangeSucceedsExactlyWhen(cfg: Config, requests: seq<Request>, q: TokenRequest, now: real)
    requires ClockNeverGoesBack(requests + [TokenCall(q, now)])
    ensures var r, handed := Serve(cfg, After(cfg, requests), TokenCall(q, now)).1, LastHandedOut(cfg, requests, CodeOf(q));
            && (r.Tokens? <==> Exchangeable(cfg, q) && handed.Some? && Matches(cfg, handed.value, q, now))
            && (r.Tokens? ==> TokensOf(handed.value, now, r))
            && (Exchangeable(cfg, q) && !r.Tokens? ==> r == Error(400, "invalid_grant"))
  {
    var all := requests + [TokenCall(q, now)];
    assert forall i :: 0 <= i < |requests| ==> all[i] == requests[i];
    PruningUnobservable(cfg, requests, TokenCall(q, now));
    ReferenceHoldsHandedOut(cfg, requests, CodeOf(q));
    TokenRefusalExactly(cfg, q);
    var handed := LastHandedOut(cfg, requests, CodeOf(q));
    if Exchangeable(cfg, q) && handed.Some? {
      RedeemExactly(cfg, handed.value, q, now);
    }
    hide After, AfterUnpruned, Matches, TokensOf, Redeemable, LastHandedOut, TokenRefusal, RecordFor, IsAscii;
  }

  // ------------------------------------------------------------------
  // When an authorization succeeds
  // ------------------------------------------------------------------

  function MintedCodes(requests: seq<Request>): set<string> {
    set i | 0 <= i < |requests| && requests[i].AuthorizeCall? :: requests[i].code
  }

  /** The codes handed out, not exchanged since and not expired. */
  function LiveCodes(cfg: Config, requests: seq<Request>, now: real): set<string> {
    set c | c in MintedCodes(requests) && LastHandedOut(cfg, requests, c).Some?
            && now <= LastHandedOut(cfg, requests, c).value.at + 120.0
  }

  lemma {:induction false} HandedOutWasMinted(cfg: Config, requests: seq<Request>, code: string)
    requires LastHandedOut(cfg, requests, code).Some?
    ensures code in MintedCodes(requests)
  {
    var before, r := requests[..|requests| - 1], requests[|requests| - 1];
    if LastHandedOut(cfg, before, code).Some? {
      HandedOutWasMinted(cfg, before, code);
      var i :| 0 <= i < |before| && before[i].AuthorizeCall? && before[i].code == code;
      assert requests[i] == before[i];
    } else {
      assert requests[|requests| - 1].code == code;
    }
  }

  /** Under a nondecreasing clock a code is issued exactly for authorizable requests while fewer than 256 codes are live. */
  lemma AuthorizeSucceedsExactlyWhen(cfg: Config, requests: seq<Request>, q: AuthorizeRequest, now: real, code: string)
    requires ClockNeverGoesBack(requests + [AuthorizeCall(q, now, code)])
    ensures var r := Serve(cfg, After(cfg, requests), AuthorizeCall(q, now, code)).1;
            && (r == Redirect(code) <==> Authorizable(cfg, q) && |LiveCodes(cfg, requests, now)| < 256)
            && (Authorizable(cfg, q) && r != Redirect(code) ==> r == Error(503, "temporarily_unavailable"))
  {
    var all := requests + [AuthorizeCall(q, now, code)];
    assert forall i :: 0 <= i < |requests| ==> all[i] == requests[i];
    PruningUnobservable(cfg, requests, AuthorizeCall(q, now, code));
    AuthorizeRefusalExactly(cfg, q);
    LiveCodesCounted(cfg, requests, now);
    hide After, AfterUnpruned, LiveCodes, AuthorizeRefusal, Authorizable;
  }

  lemma LiveCodesCounted(cfg: Config, requests: seq<Request>, now: real)
    requires ClockNeverGoesBack(requests)
    ensures var all := AfterUnpruned(cfg, requests);
            LiveCodes(cfg, requests, now) == set c | c in all && now - all[c].issuedAt <= CODE_TTL_SECONDS
  {
    hide AfterUnpruned, LastHandedOut, MintedCodes;
    var all := AfterUnpruned(cfg, requests);
    forall c
      ensures c in LiveCodes(cfg, requests, now) <==> c in all && now - all[c].issuedAt <= CODE_TTL_SECONDS
    {
      ReferenceHoldsHandedOut(cfg, requests, c);
      if c in all {
        HandedOutWasMinted(cfg, requests, c);
      }
    }
  }
}
