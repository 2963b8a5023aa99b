// The gateway agent's session record, the controller's messages, and the
// checks that guard them. Times and durations are nanoseconds.
module Sessions {
  import opened Text

  const SECOND: int := 1_000_000_000
  const CLOCK_SKEW: int := 5 * SECOND
  const MAX_CONNECTIONS: int := 5

  // Other stands for any string outside the seven known statuses, among them
  // the empty status of a zero record.
  datatype Status =
    | Starting | Running | Stopping | RevokeFailed
    | Closed | Expired | Failed
    | Other(text: string)

  predicate IsTerminal(s: Status) {
    s.Closed? || s.Expired? || s.Failed?
  }

  // The statuses that count against the session limit.
  predicate IsActive(s: Status) {
    s.Starting? || s.Running? || s.Stopping? || s.RevokeFailed?
  }

  datatype SessionRecord = SessionRecord(
    webOnly: bool,
    connectionMode: string,
    clientPublicKey: string,
    serverCertificate: string,
    sessionId: string,
    targetId: string,
    targetPort: int,
    sourceIp: string,
    targetAccount: string,
    ttlSeconds: int,
    requestExpiresAt: Option<int>,
    maxConnections: int,
    processId: string,
    listenerPort: int,
    externalPort: int,
    exposureMode: string,
    exposureRef: string,
    status: Status,
    closeReason: string,
    startedAt: Option<int>,
    expiresAt: Option<int>,
    closedAt: Option<int>)

  // A record that carries nothing but an ID, as Stop and the start
  // compensation make for an unknown session.
  function Blank(id: string): SessionRecord {
    SessionRecord(false, "", "", "", id, "", 0, "", "", 0, None, 0,
                  "", 0, 0, "", "", Other(""), "", None, None, None)
  }

  datatype CreateRequest = CreateRequest(
    webOnly: bool,
    auditProtocol: string,
    connectionMode: string,
    sessionId: string,
    targetId: string,
    targetPort: int,
    sourceIp: string,
    targetAccount: string,
    ttlSeconds: int,
    expiresAt: Option<int>,
    maxConnections: int,
    clientPublicKey: string)

  // A zero time in a controller message is None.
  datatype CreateResponse = CreateResponse(
    connectionMode: string,
    serverCertificate: string,
    sessionId: string,
    status: Status,
    processId: string,
    listenerPort: int,
    externalPort: int,
    exposureMode: string,
    exposureRef: string,
    startedAt: Option<int>,
    expiresAt: Option<int>)

  datatype CloseResponse = CloseResponse(sessionId: string, status: Status, closedAt: Option<int>)

  // The manager's options, and the library predicates it consults: UUID syntax,
  // the two IP parsers (net.ParseIP for requests, netip.ParseAddr for records),
  // the terminal protocols and the target catalogue.
  datatype Config = Config(
    maxTtl: int,
    maxSessions: int,
    retention: int,
    maxTerminal: int,
    isUuid: string -> bool,
    exactIp: string -> bool,
    parseIp: string -> string,
    terminalSupported: string -> bool,
    authorize: (string, int) -> bool)

  // What NewManagerWithOptions accepts, and how the two IP parsers relate: a
  // request address that passes net.ParseIP also parses with netip, and the
  // empty string never parses.
  ghost predicate ConfigOk(cfg: Config) {
    && 0 < cfg.maxTtl <= 5 * 3600 * SECOND
    && 1 <= cfg.maxSessions <= 100000
    && cfg.maxTtl <= cfg.retention <= 90 * 24 * 3600 * SECOND
    && 1 <= cfg.maxTerminal <= 50000
    && (forall ip :: cfg.exactIp(ip) ==> cfg.parseIp(ip) != "")
    && cfg.parseIp("") == ""
    && !cfg.isUuid("")
  }

  function NormalizeMode(mode: string): string {
    if mode == "" then "tunnel" else mode
  }

  predicate ValidIdentity(mode: string, publicKey: string) {
    (NormalizeMode(mode) == "native" || NormalizeMode(mode) == "audit") && publicKey == ""
  }

  predicate ValidConnectionResponse(mode: string, responseMode: string, certificate: string) {
    && NormalizeMode(responseMode) == NormalizeMode(mode)
    && (NormalizeMode(mode) == "native" || NormalizeMode(mode) == "audit")
    && certificate == ""
  }

  predicate ValidReference(value: string) {
    value != "" && |value| <= 128 && TrimSpace(value) == value
  }

  // Request accounts may hold no control character at all; record accounts
  // only no ASCII one.
  predicate ValidRequestAccount(value: string) {
    && |value| <= 128 && TrimSpace(value) == value
    && forall i | 0 <= i < |value| :: 0x20 <= value[i] as int < 0x7f || 0xa0 <= value[i] as int
  }

  predicate ValidRecordAccount(value: string) {
    && |value| <= 128 && TrimSpace(value) == value
    && forall i | 0 <= i < |value| :: 0x20 <= value[i] as int && value[i] as int != 0x7f
  }

  predicate IsWordChar(c: char) {
    'a' <= c <= 'z' || 'A' <= c <= 'Z' || '0' <= c <= '9' || c in "-_.:"
  }

  predicate ValidProcessId(value: string) {
    value != "" && |value| <= 128 && forall i | 0 <= i < |value| :: IsWordChar(value[i])
  }

  predicate ValidExposure(mode: string, reference: string) {
    && (mode == "direct" || mode == "kubernetes_nodeport")
    && reference != "" && TrimSpace(reference) == reference && |reference| <= 253
    && forall i | 0 <= i < |reference| :: IsWordChar(reference[i]) || reference[i] == '/'
  }

  predicate ValidPort(port: int) {
    1 <= port <= 65535
  }

  // gateway.ValidateCreateRequest
  predicate WellFormedRequest(cfg: Config, q: CreateRequest) {
    && ValidIdentity(q.connectionMode, q.clientPublicKey)
    && ValidReference(q.sessionId) && ValidReference(q.targetId)
    && ValidPort(q.targetPort)
    && 1 <= q.ttlSeconds <= 5 * 60 * 60
    && (if q.webOnly
        then q.sourceIp == "" && q.connectionMode == "audit" && cfg.terminalSupported(q.auditProtocol)
        else cfg.exactIp(q.sourceIp))
    && ValidRequestAccount(q.targetAccount)
    && q.maxConnections == MAX_CONNECTIONS
  }

  // Manager.validateCreateRequest, with the clock reading it uses.
  predicate ValidRequest(cfg: Config, q: CreateRequest, now: int) {
    && WellFormedRequest(cfg, q)
    && cfg.isUuid(q.sessionId) && cfg.isUuid(q.targetId)
    && q.ttlSeconds <= cfg.maxTtl / SECOND
    && (q.expiresAt.Some? ==> now < q.expiresAt.value <= now + q.ttlSeconds * SECOND)
    && cfg.authorize(q.targetId, q.targetPort)
  }

  // The part of ValidRequest that bounds the session's lifetime.
  predicate BoundedRequest(cfg: Config, q: CreateRequest, now: int) {
    && 1 <= q.ttlSeconds <= cfg.maxTtl / SECOND
    && (q.expiresAt.Some? ==> q.expiresAt.value <= now + q.ttlSeconds * SECOND)
  }

  // The record Start writes before it calls the controller.
  function StartingRecord(q: CreateRequest, acceptedAt: int): SessionRecord {
    Blank(q.sessionId).(
      webOnly := q.webOnly, connectionMode := q.connectionMode, clientPublicKey := q.clientPublicKey,
      targetId := q.targetId, targetPort := q.targetPort, sourceIp := q.sourceIp,
      targetAccount := q.targetAccount, ttlSeconds := q.ttlSeconds, maxConnections := q.maxConnections,
      status := Starting, requestExpiresAt := q.expiresAt, startedAt := Some(acceptedAt),
      expiresAt := Some(if q.expiresAt.Some? then q.expiresAt.value else acceptedAt + q.ttlSeconds * SECOND))
  }

  function RunningRecord(r: SessionRecord, p: CreateResponse, startedAt: int, expiresAt: int): SessionRecord {
    r.(status := Running, serverCertificate := p.serverCertificate, processId := p.processId,
       listenerPort := p.listenerPort, externalPort := p.externalPort, exposureMode := p.exposureMode,
       exposureRef := p.exposureRef, startedAt := Some(startedAt), expiresAt := Some(expiresAt))
  }

  predicate SameParameters(a: SessionRecord, b: SessionRecord) {
    && a.webOnly == b.webOnly && a.sessionId == b.sessionId && a.targetId == b.targetId
    && a.targetPort == b.targetPort && a.sourceIp == b.sourceIp && a.targetAccount == b.targetAccount
    && a.ttlSeconds == b.ttlSeconds && a.maxConnections == b.maxConnections
    && a.clientPublicKey == b.clientPublicKey
    && NormalizeMode(a.connectionMode) == NormalizeMode(b.connectionMode)
    && a.requestExpiresAt == b.requestExpiresAt
  }

  predicate ValidParameters(cfg: Config, r: SessionRecord) {
    && cfg.isUuid(r.targetId) && ValidPort(r.targetPort) && cfg.parseIp(r.sourceIp) != ""
    && ValidRecordAccount(r.targetAccount) && r.ttlSeconds >= 1 && r.maxConnections == MAX_CONNECTIONS
  }

  predicate HasAnyParameter(r: SessionRecord) {
    || r.targetId != "" || r.targetPort != 0 || r.sourceIp != "" || r.targetAccount != ""
    || r.ttlSeconds != 0 || r.maxConnections != 0
  }

  predicate ValidRuntime(r: SessionRecord) {
    && ValidProcessId(r.processId) && ValidPort(r.listenerPort) && ValidPort(r.externalPort)
    && ValidExposure(r.exposureMode, r.exposureRef)
  }

  // Manager.validateRecord
  predicate ValidRecord(cfg: Config, r: SessionRecord) {
    cfg.isUuid(r.sessionId) &&
    match r.status
    case Starting | Running =>
      && ValidParameters(cfg, r) && r.startedAt.Some? && r.expiresAt.Some?
      && r.startedAt.value < r.expiresAt.value
      && (r.requestExpiresAt.Some? ==> r.requestExpiresAt == r.expiresAt)
      && (r.status.Running? ==> ValidRuntime(r))
    case Stopping | RevokeFailed => HasAnyParameter(r) ==> ValidParameters(cfg, r)
    case Closed | Expired | Failed => r.closedAt.Some?
    case Other(_) => false
  }

  // validateCreateResponse: the accepted start and expiry times, or None.
  function CheckedTimes(q: CreateRequest, p: CreateResponse, acceptedAt: int, completedAt: int)
    : (r: Option<(int, int)>)
  {
    var startedAt := if p.startedAt.Some? then p.startedAt.value else completedAt;
    var maximum := if q.expiresAt.Some? then q.expiresAt.value else startedAt + q.ttlSeconds * SECOND;
    var expiresAt := if p.expiresAt.Some? then p.expiresAt.value else maximum;
    if p.sessionId != q.sessionId || !ValidProcessId(p.processId) || !ValidPort(p.listenerPort)
       || !ValidPort(p.externalPort) || !ValidExposure(p.exposureMode, p.exposureRef) then None
    else if p.status != Other("") && p.status != Running then None
    else if startedAt < acceptedAt - CLOCK_SKEW || startedAt > completedAt + CLOCK_SKEW then None
    else if expiresAt <= completedAt || expiresAt > maximum || expiresAt <= startedAt
            || (q.expiresAt.Some? && expiresAt != maximum) then None
    else if !ValidConnectionResponse(q.connectionMode, p.connectionMode, p.serverCertificate) then None
    else Some((startedAt, expiresAt))
  }

  // validateCloseResponse
  predicate ValidClose(id: string, p: CloseResponse, now: int) {
    && p.sessionId == id
    && (p.status == Closed || p.status == Expired || p.status == Other("not_found"))
    && (p.closedAt.Some? ==> p.closedAt.value <= now + CLOCK_SKEW)
  }

  // Manager.recordWithinCurrentPolicy
  predicate WithinPolicy(cfg: Config, r: SessionRecord) {
    && ValidIdentity(r.connectionMode, r.clientPublicKey)
    && r.expiresAt.Some?
    && ValidConnectionResponse(r.connectionMode, r.connectionMode, r.serverCertificate)
    && 1 <= r.ttlSeconds <= cfg.maxTtl / SECOND
    && cfg.authorize(r.targetId, r.targetPort)
  }

  // sameRecoveredExposure
  predicate SameExposure(r: SessionRecord, p: CreateResponse) {
    && p.sessionId == r.sessionId && p.status == Running && p.processId == r.processId
    && p.listenerPort == r.listenerPort && p.externalPort == r.externalPort
    && p.exposureMode == r.exposureMode && p.exposureRef == r.exposureRef
    && p.serverCertificate == r.serverCertificate
    && NormalizeMode(p.connectionMode) == NormalizeMode(r.connectionMode)
  }

  function NormalizeReason(reason: string): string {
    var trimmed := TrimSpace(reason);
    if trimmed == "" || |trimmed| > 128 then "requested" else trimmed
  }

  function TerminalStatus(reason: string): Status {
    if reason == "ttl_expired" || reason == "expired" then Expired else Closed
  }

  // ---- what the checks guarantee together ----

  // The record Start persists passes validateRecord exactly when its source
  // address parses, so when the request is not web-only, and its deadline is
  // still ahead when it is accepted.
  lemma StartingRecordIsValid(cfg: Config, q: CreateRequest, validatedAt: int, acceptedAt: int)
    requires ConfigOk(cfg) && ValidRequest(cfg, q, validatedAt) && validatedAt <= acceptedAt
    ensures ValidRecord(cfg, StartingRecord(q, acceptedAt))
       <==> !q.webOnly && (q.expiresAt.Some? ==> acceptedAt < q.expiresAt.value)
  {
    assert q.webOnly <==> q.sourceIp == "" by {
      if !q.webOnly { assert cfg.parseIp(q.sourceIp) != ""; }
    }
    if !q.webOnly {
      forall i | 0 <= i < |q.targetAccount|
        ensures 0x20 <= q.targetAccount[i] as int && q.targetAccount[i] as int != 0x7f
      {}
    }
  }

  // The times of an accepted response: the session has started by then, ends
  // later, and ends within the maximum TTL and skew of start and completion.
  lemma RunningTimes(cfg: Config, q: CreateRequest, validatedAt: int, p: CreateResponse, acceptedAt: int,
    completedAt: int)
    requires ConfigOk(cfg) && BoundedRequest(cfg, q, validatedAt) && validatedAt <= acceptedAt <= completedAt
    requires CheckedTimes(q, p, acceptedAt, completedAt).Some?
    ensures
      var times := CheckedTimes(q, p, acceptedAt, completedAt).value;
      && times.0 < times.1 && (q.expiresAt.Some? ==> times.1 == q.expiresAt.value)
      && times.1 <= times.0 + cfg.maxTtl + CLOCK_SKEW
      && completedAt < times.1 <= completedAt + cfg.maxTtl + CLOCK_SKEW
  {
    TtlWithinMaximum(q.ttlSeconds, cfg.maxTtl);
  }

  // Such a response turns a valid starting record into a valid running one.
  lemma RunningRecordIsValid(cfg: Config, q: CreateRequest, validatedAt: int, r: SessionRecord,
                             p: CreateResponse, acceptedAt: int, completedAt: int)
    requires ConfigOk(cfg) && BoundedRequest(cfg, q, validatedAt) && validatedAt <= acceptedAt <= completedAt
    requires ValidRecord(cfg, r) && r.status.Starting? && r.requestExpiresAt == q.expiresAt
    requires CheckedTimes(q, p, acceptedAt, completedAt).Some?
    ensures
      var times := CheckedTimes(q, p, acceptedAt, completedAt).value;
      ValidRecord(cfg, RunningRecord(r, p, times.0, times.1))
  {
    RunningTimes(cfg, q, validatedAt, p, acceptedAt, completedAt);
  }

  // Which responses are accepted: the session's own, with valid runtime data, not
  // started outside the skew, not over yet, and ending at the deadline of the
  // request or within its TTL.
  lemma ResponseIsAccepted(q: CreateRequest, p: CreateResponse, acceptedAt: int, completedAt: int)
    ensures
      var startedAt := if p.startedAt.Some? then p.startedAt.value else completedAt;
      CheckedTimes(q, p, acceptedAt, completedAt).Some? <==>
        && p.sessionId == q.sessionId && (p.status == Running || p.status == Other(""))
        && ValidProcessId(p.processId) && 1 <= p.listenerPort <= 65535 && 1 <= p.externalPort <= 65535
        && ValidExposure(p.exposureMode, p.exposureRef)
        && ValidConnectionResponse(q.connectionMode, p.connectionMode, p.serverCertificate)
        && acceptedAt - 5 * SECOND <= startedAt <= completedAt + 5 * SECOND
        && (q.expiresAt.Some? ==> completedAt < q.expiresAt.value && startedAt < q.expiresAt.value)
        && (q.expiresAt.Some? && p.expiresAt.Some? ==> p.expiresAt == q.expiresAt)
        && (q.expiresAt.None? && p.expiresAt.None? ==>
            q.ttlSeconds > 0 && completedAt < startedAt + q.ttlSeconds * SECOND)
        && (q.expiresAt.None? && p.expiresAt.Some? ==>
            && completedAt < p.expiresAt.value && startedAt < p.expiresAt.value
            && p.expiresAt.value <= startedAt + q.ttlSeconds * SECOND)
  {}

  // A session just started goes on in a recovery that finds the same policy and
  // the same exposure.
  lemma StartedGoesOn(cfg: Config, q: CreateRequest, validatedAt: int, p: CreateResponse, acceptedAt: int,
                      completedAt: int)
    requires ValidRequest(cfg, q, validatedAt) && CheckedTimes(q, p, acceptedAt, completedAt).Some?
    ensures
      var times := CheckedTimes(q, p, acceptedAt, completedAt).value;
      var record := RunningRecord(StartingRecord(q, acceptedAt), p, times.0, times.1);
      WithinPolicy(cfg, record) && SameExposure(record, p.(status := Running))
  {}

  lemma TtlWithinMaximum(ttl: int, maxTtl: int)
    requires 0 < ttl <= maxTtl / SECOND
    ensures ttl * SECOND <= maxTtl
  {
    assert ttl * SECOND <= (maxTtl / SECOND) * SECOND;
  }
}
