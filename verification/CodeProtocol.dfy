/**
 Every interleaving of concurrent authorize and token requests.  A request reads
 the clock, later runs its locked section, and (for a token request) decides on
 what it took after releasing the lock.
 */
module CodeProtocol {
  import opened Wrappers
  import opened AuthorizationCodes

  /** Where a request handler stands between its atomic actions. */
  datatype Handler =
    | Idle
    | AuthorizeClockRead(authorize: AuthorizeRequest, now: real)
    | TokenClockRead(exchange: TokenRequest, now: real)
    | CodeTaken(exchange: TokenRequest, now: real, taken: Option<Record>)

  datatype Event =
    | Issued(code: string, handout: Handout)
    | Granted(code: string, exchange: TokenRequest, now: real, nonce: string)

  /** `codes` and `handlers` are the program's state; the other fields record history,
      `inFlight` with the handler that took the code. */
  datatype State = State(
    codes: Codes,
    handlers: map<nat, Handler>,
    log: seq<Event>,
    issued: map<string, Handout>,
    pruned: set<string>,
    inFlight: map<string, nat>,
    burned: set<string>,
    redeemed: set<string>)

  datatype Action =
    | BeginAuthorize(handler: nat, authorize: AuthorizeRequest, now: real)
    | IssueLocked(handler: nat, code: string)
    | BeginToken(handler: nat, exchange: TokenRequest, now: real)
    | TakeLocked(handler: nat)
    | Decide(handler: nat)

  function Start(): State {
    State(map[], map[], [], map[], {}, map[], {}, {})
  }

  function At(s: State, h: nat): Handler {
    if h in s.handlers then s.handlers[h] else Idle
  }

  /** Requests refused before the clock is read touch nothing; codes are fresh. */
  predicate Enabled(cfg: Config, s: State, a: Action) {
    match a
    case BeginAuthorize(h, q, _) => At(s, h).Idle? && AuthorizeRefusal(cfg, q).None?
    case IssueLocked(h, code) => At(s, h).AuthorizeClockRead? && At(s, h).authorize.Authorize? && code !in s.issued
    case BeginToken(h, q, _) => At(s, h).Idle? && TokenRefusal(cfg, q).None?
    case TakeLocked(h) => At(s, h).TokenClockRead? && Readable(At(s, h).exchange)
    case Decide(h) => At(s, h).CodeTaken? && Readable(At(s, h).exchange)
  }

  function Perform(cfg: Config, s: State, a: Action): State
    requires Enabled(cfg, s, a)
  {
    match a
    case BeginAuthorize(h, q, now) => s.(handlers := s.handlers[h := AuthorizeClockRead(q, now)])
    case BeginToken(h, q, now) => s.(handlers := s.handlers[h := TokenClockRead(q, now)])
    case IssueLocked(h, code) => PerformIssue(s, h, code)
    case TakeLocked(h) => PerformTake(s, h)
    case Decide(h) => PerformDecide(cfg, s, h)
  }

  function PerformIssue(s: State, h: nat, code: string): State
    requires At(s, h).AuthorizeClockRead? && At(s, h).authorize.Authorize?
  {
    var q, now := At(s, h).authorize, At(s, h).now;
    var (codes, response) := Issue(s.codes, q, now, code);
    var swept := s.(codes := codes, handlers := s.handlers[h := Idle],
                    pruned := s.pruned + (s.codes.Keys - Pruned(s.codes, now).Keys));
    if response.Redirect? then
      swept.(issued := s.issued[code := Handout(q, now)], log := s.log + [Issued(code, Handout(q, now))])
    else swept
  }

  function PerformTake(s: State, h: nat): State
    requires At(s, h).TokenClockRead? && Readable(At(s, h).exchange)
  {
    var q, now := At(s, h).exchange, At(s, h).now;
    var code := q.form.value.code;
    var (codes, taken) := Take(s.codes, code);
    s.(codes := codes, handlers := s.handlers[h := CodeTaken(q, now, taken)],
       inFlight := if taken.Some? then s.inFlight[code := h] else s.inFlight)
  }

  function PerformDecide(cfg: Config, s: State, h: nat): State
    requires At(s, h).CodeTaken? && Readable(At(s, h).exchange)
  {
    var q, now, taken := At(s, h).exchange, At(s, h).now, At(s, h).taken;
    var code := q.form.value.code;
    var done := s.(handlers := s.handlers[h := Idle]);
    match Redeem(cfg, taken, q, now)
    case Tokens(nonce, _, _) =>
      done.(inFlight := s.inFlight - {code}, redeemed := s.redeemed + {code},
            log := s.log + [Granted(code, q, now, nonce)])
    case _ =>
      if taken.Some? then done.(inFlight := s.inFlight - {code}, burned := s.burned + {code}) else done
  }

  /** A schedule may name disabled actions; they do nothing. */
  function Next(cfg: Config, s: State, a: Action): State {
    if Enabled(cfg, s, a) then Perform(cfg, s, a) else s
  }

  function Run(cfg: Config, schedule: seq<Action>): State {
    if schedule == [] then Start() else Next(cfg, Run(cfg, schedule[..|schedule| - 1]), schedule[|schedule| - 1])
  }

  // ------------------------------------------------------------------
  // Invariants
  // ------------------------------------------------------------------

  /** Every issued code is in exactly one place. */
  ghost predicate Accounted(issued: set<string>, codes: set<string>, pruned: set<string>,
                            inFlight: set<string>, burned: set<string>, redeemed: set<string>)
  {
    && issued == codes + pruned + inFlight + burned + redeemed
    && codes !! pruned !! inFlight !! burned !! redeemed
  }

  /** Outstanding codes are few and keep the record they were issued with. */
  ghost predicate RecordsKept(codes: Codes, issued: map<string, Handout>) {
    && |codes| <= MAX_OUTSTANDING_CODES
    && forall c :: c in codes ==> c in issued && codes[c] == RecordOf(issued[c])
  }

  predicate HoldsCode(x: Handler) {
    x.CodeTaken? && x.taken.Some?
  }

  /** A taken code is in the hands of one handler, with the record it was issued with. */
  ghost predicate HandlersOwn(handlers: map<nat, Handler>, inFlight: map<string, nat>, issued: map<string, Handout>) {
    && (forall h :: h in handlers && HoldsCode(handlers[h]) ==>
          var c := CodeOf(handlers[h].exchange);
          c in inFlight && inFlight[c] == h && c in issued && handlers[h].taken.value == RecordOf(issued[c]))
    && (forall c :: c in inFlight ==>
          && inFlight[c] in handlers && HoldsCode(handlers[inFlight[c]])
          && CodeOf(handlers[inFlight[c]].exchange) == c)
  }

  /** The issue event carries the code, the checks pass against its record, and the nonce is its nonce. */
  predicate Backs(cfg: Config, issue: Event, grant: Event) {
    && issue.Issued? && grant.Granted? && issue.code == grant.code
    && Authenticated(cfg, grant.exchange) && grant.exchange.form.value.code == grant.code
    && Matches(cfg, issue.handout, grant.exchange, grant.now)
    && grant.nonce == issue.handout.request.nonce
  }

  /** Event j, a grant, is backed by an earlier issue. */
  ghost predicate Backed(cfg: Config, log: seq<Event>, j: nat)
    requires j < |log|
  {
    exists i :: 0 <= i < j && Backs(cfg, log[i], log[j])
  }

  /** No code is granted twice, and every grant is backed. */
  ghost predicate GrantsSound(cfg: Config, log: seq<Event>, redeemed: set<string>) {
    && (forall j :: 0 <= j < |log| && log[j].Granted? ==> log[j].code in redeemed && Backed(cfg, log, j))
    && (forall i, j :: 0 <= i < j < |log| && log[i].Granted? && log[j].Granted? ==> log[i].code != log[j].code)
  }

  ghost predicate IssuesLogged(log: seq<Event>, issued: map<string, Handout>) {
    forall c :: c in issued ==> Issued(c, issued[c]) in log
  }

  /** Codes are only ever issued for the configured client and redirect URI, against a well-formed challenge. */
  ghost predicate IssuedForClient(cfg: Config, issued: map<string, Handout>) {
    forall c :: c in issued ==> Permitted(cfg, issued[c].request)
  }

  /** Only requests that passed their checks are under way, so no handler is ever stuck. */
  ghost predicate Staged(cfg: Config, handlers: map<nat, Handler>) {
    forall h :: h in handlers ==>
      match handlers[h]
      case Idle => true
      case AuthorizeClockRead(q, _) => Permitted(cfg, q)
      case TokenClockRead(q, _) => Authenticated(cfg, q)
      case CodeTaken(q, _, _) => Authenticated(cfg, q)
  }

  ghost predicate Invariant(cfg: Config, s: State) {
    && Staged(cfg, s.handlers)
    && Accounted(s.issued.Keys, s.codes.Keys, s.pruned, s.inFlight.Keys, s.burned, s.redeemed)
    && RecordsKept(s.codes, s.issued)
    && HandlersOwn(s.handlers, s.inFlight, s.issued)
    && GrantsSound(cfg, s.log, s.redeemed)
    && IssuesLogged(s.log, s.issued)
    && IssuedForClient(cfg, s.issued)
  }

  lemma BeginKeepsInvariant(cfg: Config, s: State, a: Action)
    requires Invariant(cfg, s) && (a.BeginAuthorize? || a.BeginToken?) && Enabled(cfg, s, a)
    ensures Invariant(cfg, Perform(cfg, s, a))
  {
    hide Accounted, RecordsKept, GrantsSound, IssuesLogged, IssuedForClient, IsChallenge;
  }

  lemma IssueAccounts(issued: set<string>, codes: set<string>, kept: set<string>, pruned: set<string>,
                      inFlight: set<string>, burned: set<string>, redeemed: set<string>, code: string)
    requires Accounted(issued, codes, pruned, inFlight, burned, redeemed)
    requires kept <= codes && code !in issued
    ensures Accounted(issued, kept, pruned + (codes - kept), inFlight, burned, redeemed)
    ensures Accounted(issued + {code}, kept + {code}, pruned + (codes - kept), inFlight, burned, redeemed)
  {}

  lemma TakeAccounts(issued: set<string>, codes: set<string>, pruned: set<string>,
                     inFlight: set<string>, burned: set<string>, redeemed: set<string>, code: string)
    requires Accounted(issued, codes, pruned, inFlight, burned, redeemed)
    requires code in codes
    ensures code !in inFlight
    ensures Accounted(issued, codes - {code}, pruned, inFlight + {code}, burned, redeemed)
  {}

  lemma DecideAccounts(issued: set<string>, codes: set<string>, pruned: set<string>,
                       inFlight: set<string>, burned: set<string>, redeemed: set<string>, code: string)
    requires Accounted(issued, codes, pruned, inFlight, burned, redeemed)
    requires code in inFlight
    ensures code !in redeemed
    ensures Accounted(issued, codes, pruned, inFlight - {code}, burned + {code}, redeemed)
    ensures Accounted(issued, codes, pruned, inFlight - {code}, burned, redeemed + {code})
  {}

  lemma PrunedKeys(codes: Codes, now: real)
    ensures Pruned(codes, now).Keys <= codes.Keys
    ensures |Pruned(codes, now)| <= |codes|
  {
    var kept := Pruned(codes, now).Keys;
    assert codes.Keys == kept + (codes.Keys - kept);
  }

  lemma IssueKeepsInvariant(cfg: Config, s: State, h: nat, code: string)
    requires Invariant(cfg, s) && Enabled(cfg, s, IssueLocked(h, code))
    ensures Invariant(cfg, PerformIssue(s, h, code))
  {
    assert Permitted(cfg, At(s, h).authorize);
    hide Invariant;
    IssueOf(cfg, s, h, code, At(s, h).authorize, At(s, h).now);
  }

  lemma IssueOf(cfg: Config, s: State, h: nat, code: string, q: AuthorizeRequest, now: real)
    requires Invariant(cfg, s)
    requires At(s, h) == AuthorizeClockRead(q, now) && Permitted(cfg, q) && code !in s.issued
    ensures Invariant(cfg, PerformIssue(s, h, code))
  {
    hide Accounted, GrantsSound, Pruned, RecordsKept, HandlersOwn, Staged, IssuesLogged, IsChallenge;
    var kept, handout := Pruned(s.codes, now), Handout(q, now);
    IssueKeepsRecords(s.codes, s.issued, q, now, code);
    IssueKeepsHandlers(cfg, s, h, code, handout);
    IssueKeepsAccounts(s, kept, code, handout, now);
    if |kept| < MAX_OUTSTANDING_CODES {
      GrantsExtend(cfg, s.log, s.redeemed, Issued(code, handout));
      IssueIsLogged(s.log, s.issued, code, handout);
    }
  }

  lemma IssueKeepsAccounts(s: State, kept: Codes, code: string, handout: Handout, now: real)
    requires Accounted(s.issued.Keys, s.codes.Keys, s.pruned, s.inFlight.Keys, s.burned, s.redeemed)
    requires kept == Pruned(s.codes, now) && code !in s.issued
    ensures var pruned := s.pruned + (s.codes.Keys - kept.Keys);
            && Accounted(s.issued.Keys, kept.Keys, pruned, s.inFlight.Keys, s.burned, s.redeemed)
            && Accounted(s.issued[code := handout].Keys, kept[code := RecordOf(handout)].Keys, pruned, s.inFlight.Keys, s.burned, s.redeemed)
  {
    hide Accounted, Pruned;
    PrunedKeys(s.codes, now);
    IssueAccounts(s.issued.Keys, s.codes.Keys, kept.Keys, s.pruned, s.inFlight.Keys, s.burned, s.redeemed, code);
    KeysAfterUpdate(kept, code, RecordOf(handout));
    KeysAfterUpdate(s.issued, code, handout);
  }

  lemma KeysAfterUpdate<K, V>(m: map<K, V>, k: K, v: V)
    ensures m[k := v].Keys == m.Keys + {k}
  {}

  lemma IssueIsLogged(log: seq<Event>, issued: map<string, Handout>, code: string, handout: Handout)
    requires IssuesLogged(log, issued)
    ensures IssuesLogged(log + [Issued(code, handout)], issued[code := handout])
  {}

  lemma IssueKeepsRecords(codes: Codes, issued: map<string, Handout>, q: AuthorizeRequest, now: real, code: string)
    requires RecordsKept(codes, issued) && q.Authorize? && code !in issued
    ensures var (codes', response) := Issue(codes, q, now, code);
            RecordsKept(codes', if response.Redirect? then issued[code := Handout(q, now)] else issued)
  {
    hide Expired;
    PrunedKeys(codes, now);
  }

  lemma IssueKeepsHandlers(cfg: Config, s: State, h: nat, code: string, handout: Handout)
    requires Staged(cfg, s.handlers) && HandlersOwn(s.handlers, s.inFlight, s.issued)
    requires At(s, h).AuthorizeClockRead? && code !in s.issued
    ensures var handlers := s.handlers[h := Idle];
            && Staged(cfg, handlers) && HandlersOwn(handlers, s.inFlight, s.issued)
            && HandlersOwn(handlers, s.inFlight, s.issued[code := handout])
  {}

  /** One more event leaves earlier grants backed, and the grants sound when it is not one. */
  lemma GrantsExtend(cfg: Config, log: seq<Event>, redeemed: set<string>, e: Event)
    requires GrantsSound(cfg, log, redeemed)
    ensures forall j :: 0 <= j < |log| && log[j].Granted? ==> Backed(cfg, log + [e], j)
    ensures !e.Granted? ==> GrantsSound(cfg, log + [e], redeemed)
  {
    hide Backs;
    forall j | 0 <= j < |log| && log[j].Granted?
      ensures Backed(cfg, log + [e], j)
    {
      assert Backed(cfg, log, j);
      var i :| 0 <= i < j && Backs(cfg, log[i], log[j]);
      assert Backs(cfg, (log + [e])[i], (log + [e])[j]);
    }
  }

  lemma TakeKeepsInvariant(cfg: Config, s: State, h: nat)
    requires Invariant(cfg, s) && Enabled(cfg, s, TakeLocked(h))
    ensures Invariant(cfg, PerformTake(s, h))
  {
    hide Invariant;
    var q, now := At(s, h).exchange, At(s, h).now;
    if q.form.value.code in s.codes {
      HitKeepsInvariant(cfg, s, h, q, now, q.form.value.code);
    } else {
      MissKeepsInvariant(cfg, s, h, q, now, q.form.value.code);
    }
  }

  lemma HitKeepsInvariant(cfg: Config, s: State, h: nat, q: TokenRequest, now: real, code: string)
    requires Invariant(cfg, s)
    requires At(s, h) == TokenClockRead(q, now) && Readable(q) && q.form.value.code == code && code in s.codes
    ensures Invariant(cfg, PerformTake(s, h))
  {
    hide GrantsSound, IssuesLogged, IssuedForClient, Accounted, RecordsKept, HandlersOwn, Staged;
    var codes, inFlight := s.codes - {code}, s.inFlight[code := h];
    assert RecordsKept(codes, s.issued) && codes.Keys == s.codes.Keys - {code} by {
      RecordsKeptWithout(s.codes, s.issued, code);
    }
    assert Accounted(s.issued.Keys, codes.Keys, s.pruned, inFlight.Keys, s.burned, s.redeemed) && code !in s.inFlight by {
      TakeAccounts(s.issued.Keys, s.codes.Keys, s.pruned, s.inFlight.Keys, s.burned, s.redeemed, code);
      KeysAfterUpdate(s.inFlight, code, h);
    }
    TakeKeepsHandlers(cfg, s, h, q, now, code);
  }

  lemma MissKeepsInvariant(cfg: Config, s: State, h: nat, q: TokenRequest, now: real, code: string)
    requires Invariant(cfg, s)
    requires At(s, h) == TokenClockRead(q, now) && Readable(q) && q.form.value.code == code && code !in s.codes
    ensures Invariant(cfg, PerformTake(s, h))
  {
    hide GrantsSound, IssuesLogged, IssuedForClient, Accounted, RecordsKept, HandlersOwn, Staged;
    assert s.codes - {code} == s.codes;
    MissKeepsHandlers(cfg, s, h, q, now);
  }

  lemma TakeKeepsHandlers(cfg: Config, s: State, h: nat, q: TokenRequest, now: real, code: string)
    requires Staged(cfg, s.handlers) && HandlersOwn(s.handlers, s.inFlight, s.issued) && RecordsKept(s.codes, s.issued)
    requires At(s, h) == TokenClockRead(q, now) && Readable(q) && q.form.value.code == code
    requires code in s.codes && code !in s.inFlight
    ensures var handlers := s.handlers[h := CodeTaken(q, now, Some(s.codes[code]))];
            Staged(cfg, handlers) && HandlersOwn(handlers, s.inFlight[code := h], s.issued)
  {}

  lemma MissKeepsHandlers(cfg: Config, s: State, h: nat, q: TokenRequest, now: real)
    requires Staged(cfg, s.handlers) && HandlersOwn(s.handlers, s.inFlight, s.issued)
    requires At(s, h) == TokenClockRead(q, now) && Readable(q)
    ensures var handlers := s.handlers[h := CodeTaken(q, now, None)];
            Staged(cfg, handlers) && HandlersOwn(handlers, s.inFlight, s.issued)
  {}

  lemma RecordsKeptWithout(codes: Codes, issued: map<string, Handout>, code: string)
    requires RecordsKept(codes, issued)
    ensures RecordsKept(codes - {code}, issued)
    ensures (codes - {code}).Keys == codes.Keys - {code}
  {
    assert (codes - {code}).Keys == codes.Keys - {code};
  }

  lemma DecideKeepsInvariant(cfg: Config, s: State, h: nat)
    requires Invariant(cfg, s) && Enabled(cfg, s, Decide(h))
    ensures Invariant(cfg, PerformDecide(cfg, s, h))
  {
    hide GrantsSound, IssuesLogged, IssuedForClient, Accounted, RecordsKept, HandlersOwn, Staged, Redeemable;
    var code := At(s, h).exchange.form.value.code;
    DecideKeepsHandlers(cfg, s, h, code);
    if At(s, h).taken.Some? {
      DecideAccounts(s.issued.Keys, s.codes.Keys, s.pruned, s.inFlight.Keys, s.burned, s.redeemed, code);
      assert (s.inFlight - {code}).Keys == s.inFlight.Keys - {code};
      if Redeemable(cfg, At(s, h).taken.value, At(s, h).exchange, At(s, h).now) {
        GrantIsBacked(cfg, s, h, code);
      }
    }
  }

  lemma DecideKeepsHandlers(cfg: Config, s: State, h: nat, code: string)
    requires Staged(cfg, s.handlers) && HandlersOwn(s.handlers, s.inFlight, s.issued)
    requires At(s, h).CodeTaken? && Readable(At(s, h).exchange) && At(s, h).exchange.form.value.code == code
    ensures Staged(cfg, s.handlers[h := Idle]) && Authenticated(cfg, At(s, h).exchange)
    ensures if At(s, h).taken.Some?
            then && code in s.inFlight && code in s.issued && At(s, h).taken.value == RecordOf(s.issued[code])
                 && HandlersOwn(s.handlers[h := Idle], s.inFlight - {code}, s.issued)
            else HandlersOwn(s.handlers[h := Idle], s.inFlight, s.issued)
  {
    assert At(s, h) == s.handlers[h] && CodeOf(s.handlers[h].exchange) == code;
  }

  lemma GrantIsBacked(cfg: Config, s: State, h: nat, code: string)
    requires GrantsSound(cfg, s.log, s.redeemed) && IssuesLogged(s.log, s.issued)
    requires At(s, h).CodeTaken? && At(s, h).taken.Some? && Authenticated(cfg, At(s, h).exchange)
    requires code == At(s, h).exchange.form.value.code && code in s.issued && code !in s.redeemed
    requires At(s, h).taken.value == RecordOf(s.issued[code])
    requires Redeemable(cfg, At(s, h).taken.value, At(s, h).exchange, At(s, h).now)
    ensures var t := PerformDecide(cfg, s, h);
            GrantsSound(cfg, t.log, t.redeemed) && IssuesLogged(t.log, t.issued)
  {
    assert Matches(cfg, s.issued[code], At(s, h).exchange, At(s, h).now);
    hide Redeemable, Matches;
    var t := PerformDecide(cfg, s, h);
    var e := Granted(code, At(s, h).exchange, At(s, h).now, s.issued[code].request.nonce);
    assert t.log == s.log + [e];
    GrantsExtend(cfg, s.log, s.redeemed, e);
    assert Issued(code, s.issued[code]) in s.log;
    var i :| 0 <= i < |s.log| && s.log[i] == Issued(code, s.issued[code]);
    assert Backs(cfg, t.log[i], t.log[|s.log|]);
    assert Backed(cfg, t.log, |s.log|);
    hide Backed, Backs;
  }

  lemma StartHasInvariant(cfg: Config)
    ensures Invariant(cfg, Start())
  {}

  lemma {:induction false} RunKeepsInvariant(cfg: Config, schedule: seq<Action>)
    ensures Invariant(cfg, Run(cfg, schedule))
  {
    hide Invariant, PerformIssue, PerformTake, PerformDecide;
    if schedule == [] {
      StartHasInvariant(cfg);
    } else {
      var s, a := Run(cfg, schedule[..|schedule| - 1]), schedule[|schedule| - 1];
      RunKeepsInvariant(cfg, schedule[..|schedule| - 1]);
      if Enabled(cfg, s, a) {
        match a
        case BeginAuthorize(_, _, _) => BeginKeepsInvariant(cfg, s, a);
        case BeginToken(_, _, _) => BeginKeepsInvariant(cfg, s, a);
        case IssueLocked(h, code) => IssueKeepsInvariant(cfg, s, h, code);
        case TakeLocked(h) => TakeKeepsInvariant(cfg, s, h);
        case Decide(h) => DecideKeepsInvariant(cfg, s, h);
      }
    }
  }

  // ------------------------------------------------------------------
  // What it means for clients
  // ------------------------------------------------------------------

  /** Each code yields at most one token response, and only one that an earlier issue of it justifies. */
  lemma CodesAreSingleUse(cfg: Config, schedule: seq<Action>)
    ensures var log := Run(cfg, schedule).log;
            && (forall i, j :: 0 <= i < j < |log| && log[i].Granted? && log[j].Granted? ==> log[i].code != log[j].code)
            && (forall j :: 0 <= j < |log| && log[j].Granted? ==> Backed(cfg, log, j))
    ensures IssuedForClient(cfg, Run(cfg, schedule).issued)
  {
    RunKeepsInvariant(cfg, schedule);
  }

  /** Issued = outstanding + pruned + in flight + burned + redeemed, and at most 256 are outstanding. */
  lemma CodesAreConserved(cfg: Config, schedule: seq<Action>)
    ensures var s := Run(cfg, schedule);
            && |s.issued| == |s.codes| + |s.pruned| + |s.inFlight| + |s.burned| + |s.redeemed|
            && |s.codes| <= MAX_OUTSTANDING_CODES
            && ((forall h :: h in s.handlers ==> !s.handlers[h].CodeTaken?) ==> |s.inFlight| == 0)
  {
    RunKeepsInvariant(cfg, schedule);
    var s := Run(cfg, schedule);
    assert |s.issued.Keys| == |s.codes.Keys + s.pruned + s.inFlight.Keys + s.burned + s.redeemed|;
  }

  // ------------------------------------------------------------------
  // When an exchange succeeds, whatever else is going on
  // ------------------------------------------------------------------

  lemma RunSnoc(cfg: Config, schedule: seq<Action>, a: Action)
    ensures Run(cfg, schedule + [a]) == Next(cfg, Run(cfg, schedule), a)
  {
    assert (schedule + [a])[..|schedule|] == schedule;
  }

  /** Step k is a locked authorize section that runs after `c` was issued, with a clock reading past the lifetime of `c`. */
  predicate Sweeps(cfg: Config, schedule: seq<Action>, k: nat, c: string)
    requires k < |schedule|
  {
    var s, a := Run(cfg, schedule[..k]), schedule[k];
    a.IssueLocked? && Enabled(cfg, s, a) && c in s.issued && At(s, a.handler).now > s.issued[c].at + 120.0
  }

  ghost predicate SweptSinceIssue(cfg: Config, schedule: seq<Action>, c: string) {
    exists k :: 0 <= k < |schedule| && Sweeps(cfg, schedule, k, c)
  }

  lemma SweptSnoc(cfg: Config, schedule: seq<Action>, a: Action, c: string)
    ensures SweptSinceIssue(cfg, schedule + [a], c) <==>
              SweptSinceIssue(cfg, schedule, c) || Sweeps(cfg, schedule + [a], |schedule|, c)
  {
    var all := schedule + [a];
    assert forall k :: 0 <= k < |schedule| ==> all[..k] == schedule[..k] && all[k] == schedule[k];
    hide Run;
    assert forall k :: 0 <= k < |schedule| ==> Sweeps(cfg, all, k, c) == Sweeps(cfg, schedule, k, c);
    if SweptSinceIssue(cfg, schedule, c) {
      var k :| 0 <= k < |schedule| && Sweeps(cfg, schedule, k, c);
      assert Sweeps(cfg, all, k, c);
    }
    assert 0 <= |schedule| < |all|;
  }

  /** Codes that left by pruning were swept, and codes still in the table were not. */
  ghost predicate SweepsDecide(cfg: Config, schedule: seq<Action>, s: State, c: string) {
    && (c in s.pruned ==> SweptSinceIssue(cfg, schedule, c))
    && (c in s.codes ==> !SweptSinceIssue(cfg, schedule, c))
    && (SweptSinceIssue(cfg, schedule, c) ==> c in s.issued)
  }

  lemma {:induction false} RunSweepsDecide(cfg: Config, schedule: seq<Action>, c: string)
    ensures SweepsDecide(cfg, schedule, Run(cfg, schedule), c)
  {
    if schedule != [] {
      var before, a := schedule[..|schedule| - 1], schedule[|schedule| - 1];
      assert schedule == before + [a];
      var s := Run(cfg, before);
      RunSweepsDecide(cfg, before, c);
      RunKeepsInvariant(cfg, before);
      RunSnoc(cfg, before, a);
      SweptSnoc(cfg, before, a, c);
      assert schedule[..|before|] == before && schedule[|before|] == a;
      hide Run, SweptSinceIssue;
      if Enabled(cfg, s, a) {
        StepSweeps(cfg, s, a, c);
      }
    }
  }

  /** One step removes a code from the table by pruning exactly when it sweeps past it. */
  lemma StepSweeps(cfg: Config, s: State, a: Action, c: string)
    requires Invariant(cfg, s) && Enabled(cfg, s, a)
    ensures var t := Perform(cfg, s, a);
            var sweeps := a.IssueLocked? && c in s.issued && At(s, a.handler).now > s.issued[c].at + 120.0;
            && (c in t.pruned <==> c in s.pruned || (c in s.codes && sweeps))
            && (c in t.codes ==> c in s.codes || c !in s.issued)
            && (c in t.codes ==> !sweeps)
            && (c in s.issued ==> c in t.issued)
  {
    hide Staged, Accounted, GrantsSound, IssuesLogged, IssuedForClient, HandlersOwn, Redeem, AuthorizeRefusal, TokenRefusal;
    if a.IssueLocked? {
      IssueSweeps(s, a.handler, a.code, c);
      hide PerformIssue, RecordsKept;
    } else {
      OthersSweepNothing(cfg, s, a);
      hide Perform, RecordsKept;
    }
  }

  lemma OthersSweepNothing(cfg: Config, s: State, a: Action)
    requires Enabled(cfg, s, a) && !a.IssueLocked?
    ensures var t := Perform(cfg, s, a);
            t.pruned == s.pruned && t.issued == s.issued && forall c :: c in t.codes ==> c in s.codes
  {
    hide Redeem, AuthorizeRefusal, TokenRefusal;
  }

  lemma IssueSweeps(s: State, h: nat, code: string, c: string)
    requires At(s, h).AuthorizeClockRead? && At(s, h).authorize.Authorize? && code !in s.issued
    requires RecordsKept(s.codes, s.issued)
    ensures var t := PerformIssue(s, h, code);
            var sweeps := c in s.issued && At(s, h).now > s.issued[c].at + 120.0;
            && (c in t.pruned <==> c in s.pruned || (c in s.codes && sweeps))
            && (c in t.codes ==> (c in s.codes && !sweeps) || c !in s.issued)
            && (c in s.issued ==> c in t.issued)
  {}

  /** Steps of other handlers leave a handler where it is. */
  lemma {:induction false} HandlerUndisturbed(cfg: Config, w: seq<Action>, v: seq<Action>, h: nat)
    requires forall k :: 0 <= k < |v| ==> v[k].handler != h
    ensures At(Run(cfg, w + v), h) == At(Run(cfg, w), h)
  {
    if v == [] {
      assert w + v == w;
    } else {
      var v', a := v[..|v| - 1], v[|v| - 1];
      assert w + v == (w + v') + [a];
      HandlerUndisturbed(cfg, w, v', h);
      RunSnoc(cfg, w + v', a);
      hide Run, Enabled, Perform, At;
      if Enabled(cfg, Run(cfg, w + v'), a) {
        StepKeepsOthers(cfg, Run(cfg, w + v'), a, h);
      }
    }
  }

  lemma StepKeepsOthers(cfg: Config, s: State, a: Action, h: nat)
    requires Enabled(cfg, s, a) && a.handler != h
    ensures At(Perform(cfg, s, a), h) == At(s, h)
  {
    hide Redeem, AuthorizeRefusal, TokenRefusal, Issue;
  }

  /** An idle handler starts an exchange, or an authorization, exactly when the request passes its checks. */
  lemma BeginsExactlyWhen(cfg: Config, w: seq<Action>, h: nat, x: TokenRequest, q: AuthorizeRequest, now: real)
    requires At(Run(cfg, w), h).Idle?
    ensures At(Run(cfg, w + [BeginToken(h, x, now)]), h) == if Exchangeable(cfg, x) then TokenClockRead(x, now) else Idle
    ensures At(Run(cfg, w + [BeginAuthorize(h, q, now)]), h) == if Authorizable(cfg, q) then AuthorizeClockRead(q, now) else Idle
  {
    RunSnoc(cfg, w, BeginToken(h, x, now));
    RunSnoc(cfg, w, BeginAuthorize(h, q, now));
    TokenRefusalExactly(cfg, x);
    AuthorizeRefusalExactly(cfg, q);
    hide Run, TokenRefusal, AuthorizeRefusal, Exchangeable, Authorizable;
  }

  /** No exchange has taken the code out of the table. */
  predicate Untaken(s: State, c: string) {
    c !in s.inFlight && c !in s.burned && c !in s.redeemed
  }

  /**
   A token request that has read the clock after the schedule `w` takes its code and
   later decides, with any steps `v` of the other requests in between.  Tokens are
   granted, with the nonce of the code's authorization, exactly when the code was
   issued, nothing has taken it, the exchange matches its record at the time it read,
   and no locked authorize section since the issue read the clock past the code's lifetime.
   */
  lemma ExchangeGrantedExactlyWhen(cfg: Config, w: seq<Action>, v: seq<Action>, h: nat)
    requires At(Run(cfg, w), h).TokenClockRead?
    requires forall k :: 0 <= k < |v| ==> v[k].handler != h
    ensures Readable(At(Run(cfg, w), h).exchange)
    ensures var s := Run(cfg, w);
            var x, now, c := At(s, h).exchange, At(s, h).now, CodeOf(At(s, h).exchange);
            var before, after := Run(cfg, w + [TakeLocked(h)] + v), Run(cfg, w + [TakeLocked(h)] + v + [Decide(h)]);
            && At(after, h).Idle?
            && after.log == before.log
               + if c in s.issued && Untaken(s, c) && Matches(cfg, s.issued[c], x, now) && !SweptSinceIssue(cfg, w, c)
                 then [Granted(c, x, now, s.issued[c].request.nonce)] else []
  {
    var s := Run(cfg, w);
    var x, now, c := At(s, h).exchange, At(s, h).now, CodeOf(At(s, h).exchange);
    hide Run, Next, At, CodeOf, SweptSinceIssue, Untaken, Matches;
    ExchangeIsReadable(cfg, w, h);
    TableHoldsUnswept(cfg, w, c);
    RunSnoc(cfg, w, TakeLocked(h));
    HandlerUndisturbed(cfg, w + [TakeLocked(h)], v, h);
    RunSnoc(cfg, w + [TakeLocked(h)] + v, Decide(h));
    TakeThenDecide(cfg, s, Run(cfg, w + [TakeLocked(h)]), Run(cfg, w + [TakeLocked(h)] + v),
                   Run(cfg, w + [TakeLocked(h)] + v + [Decide(h)]), h, x, now);
  }

  /** The states before and after the take, and before and after the decision. */
  lemma TakeThenDecide(cfg: Config, s: State, taken: State, before: State, after: State, h: nat, x: TokenRequest, now: real)
    requires CodeOf(x) in s.codes ==> CodeOf(x) in s.issued && s.codes[CodeOf(x)] == RecordOf(s.issued[CodeOf(x)])
    requires At(s, h) == TokenClockRead(x, now) && Readable(x)
    requires taken == Next(cfg, s, TakeLocked(h))
    requires At(before, h) == At(taken, h)
    requires after == Next(cfg, before, Decide(h))
    ensures At(after, h).Idle?
    ensures after.log == before.log
            + if CodeOf(x) in s.codes && Matches(cfg, s.issued[CodeOf(x)], x, now)
              then [Granted(CodeOf(x), x, now, s.issued[CodeOf(x)].request.nonce)] else []
  {
    hide PerformTake, PerformDecide, Matches, CodeOf, RecordFor;
    TakeHolds(s, h, x, now);
    DecideLogs(cfg, before, h, x, now, if CodeOf(x) in s.codes then Some(s.issued[CodeOf(x)]) else None);
  }

  lemma ExchangeIsReadable(cfg: Config, w: seq<Action>, h: nat)
    requires At(Run(cfg, w), h).TokenClockRead?
    ensures Readable(At(Run(cfg, w), h).exchange)
  {
    RunKeepsInvariant(cfg, w);
    hide Run, Accounted, RecordsKept, HandlersOwn, GrantsSound, IssuesLogged, IssuedForClient;
  }

  lemma TakeHolds(s: State, h: nat, x: TokenRequest, now: real)
    requires At(s, h) == TokenClockRead(x, now) && Readable(x)
    ensures At(PerformTake(s, h), h) == CodeTaken(x, now, if CodeOf(x) in s.codes then Some(s.codes[CodeOf(x)]) else None)
  {}

  lemma DecideLogs(cfg: Config, s: State, h: nat, x: TokenRequest, now: real, taken: Option<Handout>)
    requires At(s, h) == CodeTaken(x, now, if taken.Some? then Some(RecordOf(taken.value)) else None) && Readable(x)
    ensures At(PerformDecide(cfg, s, h), h).Idle?
    ensures PerformDecide(cfg, s, h).log == s.log
            + if taken.Some? && Matches(cfg, taken.value, x, now) then [Granted(CodeOf(x), x, now, taken.value.request.nonce)] else []
  {
    hide IsVerifier;
  }

  /** The table holds exactly the issued codes that nothing has taken and no sweep has passed. */
  lemma TableHoldsUnswept(cfg: Config, w: seq<Action>, c: string)
    ensures var s := Run(cfg, w);
            && (c in s.codes <==> c in s.issued && Untaken(s, c) && !SweptSinceIssue(cfg, w, c))
            && (c in s.codes ==> s.codes[c] == RecordOf(s.issued[c]))
  {
    RunKeepsInvariant(cfg, w);
    RunSweepsDecide(cfg, w, c);
    hide Run, SweptSinceIssue, Staged, GrantsSound, IssuesLogged, IssuedForClient, HandlersOwn;
  }

  /** No locked authorize section so far has read a later clock than `now`. */
  ghost predicate NoLaterSweep(cfg: Config, w: seq<Action>, now: real) {
    forall k :: 0 <= k < |w| && IssuesAt(cfg, w, k).Some? ==> IssuesAt(cfg, w, k).value <= now
  }

  /** The clock reading of step k if it is a locked authorize section. */
  function IssuesAt(cfg: Config, w: seq<Action>, k: nat): Option<real>
    requires k < |w|
  {
    var s, a := Run(cfg, w[..k]), w[k];
    if a.IssueLocked? && Enabled(cfg, s, a) then Some(At(s, a.handler).now) else None
  }

  /** When no authorize overtook the exchange with a later clock, pruning cannot be seen. */
  lemma OrderedExchangeIsGranted(cfg: Config, w: seq<Action>, v: seq<Action>, h: nat)
    requires At(Run(cfg, w), h).TokenClockRead? && NoLaterSweep(cfg, w, At(Run(cfg, w), h).now)
    requires forall k :: 0 <= k < |v| ==> v[k].handler != h
    ensures Readable(At(Run(cfg, w), h).exchange)
    ensures var s := Run(cfg, w);
            var x, now, c := At(s, h).exchange, At(s, h).now, CodeOf(At(s, h).exchange);
            Run(cfg, w + [TakeLocked(h)] + v + [Decide(h)]).log == Run(cfg, w + [TakeLocked(h)] + v).log
            + if c in s.issued && Untaken(s, c) && Matches(cfg, s.issued[c], x, now)
              then [Granted(c, x, now, s.issued[c].request.nonce)] else []
  {
    var s := Run(cfg, w);
    var x, now, c := At(s, h).exchange, At(s, h).now, CodeOf(At(s, h).exchange);
    ExchangeGrantedExactlyWhen(cfg, w, v, h);
    if SweptSinceIssue(cfg, w, c) {
      var k :| 0 <= k < |w| && Sweeps(cfg, w, k, c);
      IssuedIsStable(cfg, w, k, c);
      assert IssuesAt(cfg, w, k).Some?;
      assert !Matches(cfg, s.issued[c], x, now);
    }
  }

  lemma {:induction false} IssuedIsStable(cfg: Config, w: seq<Action>, k: nat, c: string)
    requires k <= |w| && c in Run(cfg, w[..k]).issued
    ensures c in Run(cfg, w).issued && Run(cfg, w).issued[c] == Run(cfg, w[..k]).issued[c]
  {
    if k == |w| {
      assert w[..k] == w;
    } else {
      var before, a := w[..|w| - 1], w[|w| - 1];
      assert before[..k] == w[..k] && w == before + [a];
      IssuedIsStable(cfg, before, k, c);
      RunSnoc(cfg, before, a);
      hide Run, Enabled, Perform;
      if Enabled(cfg, Run(cfg, before), a) {
        StepKeepsIssued(cfg, Run(cfg, before), a, c);
      }
    }
  }

  lemma StepKeepsIssued(cfg: Config, s: State, a: Action, c: string)
    requires Enabled(cfg, s, a) && c in s.issued
    ensures c in Perform(cfg, s, a).issued && Perform(cfg, s, a).issued[c] == s.issued[c]
  {
    hide Redeem, AuthorizeRefusal, TokenRefusal, Issue;
  }

  // ------------------------------------------------------------------
  // One request at a time
  // ------------------------------------------------------------------

  /** The steps of one request when nothing overlaps it. */
  function StepsOf(r: Request): seq<Action> {
    match r
    case AuthorizeCall(q, now, code) => [BeginAuthorize(0, q, now), IssueLocked(0, code)]
    case TokenCall(q, now) => [BeginToken(0, q, now), TakeLocked(0), Decide(0)]
  }

  function Sequential(requests: seq<Request>): seq<Action> {
    if requests == [] then []
    else Sequential(requests[..|requests| - 1]) + StepsOf(requests[|requests| - 1])
  }

  /** What a response leaves in the log. */
  function Logged(r: Request, response: Response): seq<Event> {
    match r
    case AuthorizeCall(q, now, code) =>
      if response.Redirect? && q.Authorize? then [Issued(code, Handout(q, now))] else []
    case TokenCall(q, now) =>
      if response.Tokens? then [Granted(CodeOf(q), q, now, response.nonce)] else []
  }

  ghost predicate FreshCodes(requests: seq<Request>) {
    forall i, j :: 0 <= i < j < |requests| && requests[i].AuthorizeCall? && requests[j].AuthorizeCall? ==>
                     requests[i].code != requests[j].code
  }

  /** What serving one request from `s` must come to. */
  ghost predicate Serves(cfg: Config, s: State, t: State, r: Request) {
    && At(t, 0).Idle?
    && t.codes == Serve(cfg, s.codes, r).0
    && t.log == s.log + Logged(r, Serve(cfg, s.codes, r).1)
    && (forall c :: c in t.issued ==> c in s.issued || (r.AuthorizeCall? && c == r.code))
  }

  lemma AuthorizeRuns(cfg: Config, s: State, r: Request)
    requires r.AuthorizeCall? && At(s, 0).Idle? && r.code !in s.issued
    ensures Serves(cfg, s, Next(cfg, Next(cfg, s, StepsOf(r)[0]), StepsOf(r)[1]), r)
  {
    hide AuthorizeRefusal, Pruned;
  }

  lemma TokenRuns(cfg: Config, s: State, r: Request)
    requires r.TokenCall? && At(s, 0).Idle?
    ensures Serves(cfg, s, Next(cfg, Next(cfg, Next(cfg, s, StepsOf(r)[0]), StepsOf(r)[1]), StepsOf(r)[2]), r)
  {
    hide TokenRefusal, Redeemable;
    var s1 := Next(cfg, s, StepsOf(r)[0]);
    var s2 := Next(cfg, s1, StepsOf(r)[1]);
    if TokenRefusal(cfg, r.exchange).None? {
      assert At(s1, 0) == TokenClockRead(r.exchange, r.now);
      assert s2 == PerformTake(s1, 0) && At(s2, 0) == CodeTaken(r.exchange, r.now, Take(s.codes, CodeOf(r.exchange)).1);
    } else {
      assert s1 == s && s2 == s;
    }
  }

  lemma RequestRuns(cfg: Config, w: seq<Action>, r: Request)
    requires At(Run(cfg, w), 0).Idle?
    requires r.AuthorizeCall? ==> r.code !in Run(cfg, w).issued
    ensures Serves(cfg, Run(cfg, w), Run(cfg, w + StepsOf(r)), r)
  {
    hide Run, Serves, Enabled, Perform, At;
    var s, steps := Run(cfg, w), StepsOf(r);
    RunSnoc(cfg, w, steps[0]);
    RunSnoc(cfg, w + [steps[0]], steps[1]);
    if r.AuthorizeCall? {
      AuthorizeRuns(cfg, s, r);
      assert w + StepsOf(r) == w + [steps[0]] + [steps[1]];
    } else {
      TokenRuns(cfg, s, r);
      RunSnoc(cfg, w + [steps[0]] + [steps[1]], steps[2]);
      assert w + StepsOf(r) == w + [steps[0]] + [steps[1]] + [steps[2]];
    }
  }

  /** Requests served one after the other are a schedule: same table, and each response is what the log gained. */
  lemma {:induction false} SequentialRunIsServe(cfg: Config, requests: seq<Request>)
    requires FreshCodes(requests)
    ensures var s := Run(cfg, Sequential(requests));
            && At(s, 0).Idle? && s.codes == After(cfg, requests)
            && (forall c :: c in s.issued ==> exists i :: 0 <= i < |requests| && requests[i].AuthorizeCall? && requests[i].code == c)
    ensures requests != [] ==>
              var before, r := requests[..|requests| - 1], requests[|requests| - 1];
              Run(cfg, Sequential(requests)).log
              == Run(cfg, Sequential(before)).log + Logged(r, Serve(cfg, After(cfg, before), r).1)
  {
    if requests != [] {
      var before, r := requests[..|requests| - 1], requests[|requests| - 1];
      SequentialRunIsServe(cfg, before);
      RequestRuns(cfg, Sequential(before), r);
      hide Run, Serve, Logged, At;
    }
  }

  // ------------------------------------------------------------------
  // An overlap that refuses a live code
  // ------------------------------------------------------------------

  /** A code is issued at time 0 and an exchange of it reads the clock at 100. */
  function ClockReadAt100(q: AuthorizeRequest, x: TokenRequest, c: string): seq<Action> {
    [BeginAuthorize(0, q, 0.0)] + [IssueLocked(0, c)] + [BeginToken(1, x, 100.0)]
  }

  /** An authorize at 221 prunes the code before the exchange takes it. */
  function Overlap(q: AuthorizeRequest, x: TokenRequest, c: string, d: string): seq<Action> {
    ClockReadAt100(q, x, c) + [BeginAuthorize(0, q, 221.0)] + [IssueLocked(0, d)] + [TakeLocked(1)] + [Decide(1)]
  }

  lemma AfterClockRead(cfg: Config, q: AuthorizeRequest, x: TokenRequest, c: string)
    requires AuthorizeRefusal(cfg, q).None? && TokenRefusal(cfg, x).None?
    ensures var r := Handout(q, 0.0);
            Run(cfg, ClockReadAt100(q, x, c))
            == State(map[c := RecordOf(r)], map[0 := Idle, 1 := TokenClockRead(x, 100.0)], [Issued(c, r)], map[c := r],
                     {}, map[], {}, {})
  {
    hide ValidPkce, IsChallenge;
    var w := [BeginAuthorize(0, q, 0.0)];
    assert [] + w == w;
    RunSnoc(cfg, [], BeginAuthorize(0, q, 0.0));
    RunSnoc(cfg, w, IssueLocked(0, c));
    RunSnoc(cfg, w + [IssueLocked(0, c)], BeginToken(1, x, 100.0));
  }

  /** The authorize that read 221 has pruned the code, and the exchange that read 100 is still waiting. */
  lemma AfterPrune(cfg: Config, q: AuthorizeRequest, x: TokenRequest, c: string, d: string)
    requires AuthorizeRefusal(cfg, q).None? && TokenRefusal(cfg, x).None? && c != d
    ensures var w := ClockReadAt100(q, x, c) + [BeginAuthorize(0, q, 221.0)] + [IssueLocked(0, d)];
            var s := Run(cfg, w);
            && SweptSinceIssue(cfg, w, c) && c in s.pruned && c in s.issued && s.issued[c] == Handout(q, 0.0)
            && At(s, 1) == TokenClockRead(x, 100.0)
            && forall j :: 0 <= j < |s.log| ==> !s.log[j].Granted?
  {
    var w := ClockReadAt100(q, x, c) + [BeginAuthorize(0, q, 221.0)];
    var s, a := Run(cfg, w), IssueLocked(0, d);
    hide Run, ClockReadAt100, Perform, AuthorizeRefusal, TokenRefusal, Invariant, At;
    AfterBegin(cfg, q, x, c, d);
    RunSnoc(cfg, w, a);
    RunKeepsInvariant(cfg, w);
    assert (w + [a])[..|w|] == w && (w + [a])[|w|] == a;
    assert Sweeps(cfg, w + [a], |w|, c);
    StepSweeps(cfg, s, a, c);
    StepKeepsOthers(cfg, s, a, 1);
    StepKeepsIssued(cfg, s, a, c);
    IssueGrantsNothing(cfg, s, a);
  }

  lemma AfterBegin(cfg: Config, q: AuthorizeRequest, x: TokenRequest, c: string, d: string)
    requires AuthorizeRefusal(cfg, q).None? && TokenRefusal(cfg, x).None? && c != d
    ensures var s := Run(cfg, ClockReadAt100(q, x, c) + [BeginAuthorize(0, q, 221.0)]);
            && At(s, 0) == AuthorizeClockRead(q, 221.0) && At(s, 1) == TokenClockRead(x, 100.0)
            && Enabled(cfg, s, IssueLocked(0, d))
            && c in s.codes && c in s.issued && s.issued[c] == Handout(q, 0.0)
            && forall j :: 0 <= j < |s.log| ==> !s.log[j].Granted?
  {
    AfterClockRead(cfg, q, x, c);
    RunSnoc(cfg, ClockReadAt100(q, x, c), BeginAuthorize(0, q, 221.0));
    hide Run, ClockReadAt100, AuthorizeRefusal, TokenRefusal;
  }

  lemma IssueGrantsNothing(cfg: Config, s: State, a: Action)
    requires a.IssueLocked? && Enabled(cfg, s, a)
    requires forall j :: 0 <= j < |s.log| ==> !s.log[j].Granted?
    ensures var t := Perform(cfg, s, a); forall j :: 0 <= j < |t.log| ==> !t.log[j].Granted?
  {
    hide Pruned;
  }

  /**
   For every valid pair of requests there is an interleaving in which a code that
   was 100 seconds old when the exchange read the clock, and passes every check,
   is refused because it was pruned.  Sequential requests cannot show this.
   */
  lemma OverlappingPruneIsObservable(cfg: Config, q: AuthorizeRequest, x: TokenRequest, c: string, d: string)
    requires AuthorizeRefusal(cfg, q).None? && TokenRefusal(cfg, x).None?
    requires c != d && x.form.value.code == c
    requires Matches(cfg, Handout(q, 0.0), x, 100.0)
    ensures var s := Run(cfg, Overlap(q, x, c, d));
            && c in s.pruned && c in s.issued && Matches(cfg, s.issued[c], x, 100.0)
            && At(s, 1).Idle?
            && forall j :: 0 <= j < |s.log| ==> !s.log[j].Granted?
  {
    var w := ClockReadAt100(q, x, c) + [BeginAuthorize(0, q, 221.0)] + [IssueLocked(0, d)];
    AfterPrune(cfg, q, x, c, d);
    ExchangeGrantedExactlyWhen(cfg, w, [], 1);
    var taken := w + [TakeLocked(1)];
    assert taken + [] == taken;
    assert Overlap(q, x, c, d) == taken + [Decide(1)];
    RunSnoc(cfg, w, TakeLocked(1));
    RunSnoc(cfg, taken, Decide(1));
    hide Run, Overlap, ClockReadAt100, SweptSinceIssue, Matches, TokenRefusal, AuthorizeRefusal;
    TakeAndDecideKeep(cfg, Run(cfg, w), TakeLocked(1), c);
    TakeAndDecideKeep(cfg, Run(cfg, taken), Decide(1), c);
  }

  lemma TakeAndDecideKeep(cfg: Config, s: State, a: Action, c: string)
    requires a.TakeLocked? || a.Decide?
    ensures var t := Next(cfg, s, a);
            t.pruned == s.pruned && t.issued == s.issued && (a.TakeLocked? ==> t.log == s.log)
  {
    hide Redeem;
  }
}
