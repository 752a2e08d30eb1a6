/**
 The confirmation challenges and provisioning attempts of revision 0005.

 The triggers are guards of single-row statements.  A database that passes them
 may still refuse a statement because of CHECK, FOREIGN KEY or UNIQUE
 constraints; those only remove steps, so they are one `admitted` input.  The
 clock is an input of every statement: it may be malformed (`None`), jump ahead
 or go back.  Instants are microseconds.
 */
module Approval {
  import opened Common

  type Id = string
  type Time = int

  const THIRTY_DAYS: Time := 30 * 24 * 3600 * 1_000_000

  /** The 26 columns that an attempt copies from its challenge. */
  datatype Authority = Authority(
    schemaVersion: int, intentContractVersion: int, purpose: string, provisioningIntentId: Id,
    adminUserId: Id, controlPlaneSessionId: Id, authEpoch: int,
    runtimeInstallationId: Id, runtimeInstallationRevision: int, runtimeType: string,
    providerId: Id, providerRevision: int, providerState: string,
    credentialId: Id, credentialRevision: int, credentialKind: string, credentialState: string,
    credentialRuntimeInstallationId: Id,
    expectedRuntimeSecretRef: Option<Id>, expectedSecretVersion: Option<int>,
    intendedState: string, intendedSecretVersion: int, approvalDigest: string,
    intentIssuedAt: Time, expiresAt: Time, initialCancellationEpoch: int)

  /** The columns of a challenge that never change and are not copied. */
  datatype Binding = Binding(
    recentAuthenticatedAt: Time, issueRequestId: string, confirmationVerifier: string,
    issuedAt: Time, createdAt: Time, intentExpiresAt: Time)

  datatype ChallengeState = Issued | Consumed | Cancelled | Expired

  datatype Challenge = Challenge(
    authority: Authority, binding: Binding, state: ChallengeState, lastObservedAt: Time,
    terminalAt: Option<Time>, consumedAt: Option<Time>, consumedRequestId: Option<string>,
    resultCode: Option<string>, retentionEligibleAt: Option<Time>, cancellationEpoch: int)

  datatype AttemptState =
    | Authorized | AuthorizePending | RuntimeStaged | CancelPending
    | RuntimeConsuming | RuntimeCommittedUnverified | RuntimeVerified
    | Reconciled | AttemptCancelled | AttemptExpired | NeedsAttention

  datatype Attempt = Attempt(
    challengeId: Id, authority: Authority, authorizationRequestId: string,
    authorizedAt: Time, createdAt: Time, state: AttemptState, updatedAt: Time,
    authorizeCount: int, authorizeRequestedAt: Option<Time>, authorizeRequestId: Option<string>,
    authorizeResult: string, runtimeVerifiedAt: Option<Time>, attestationCode: Option<string>,
    terminalAt: Option<Time>, retentionEligibleAt: Option<Time>)

  datatype Db = Db(challenges: map<Id, Challenge>, attempts: map<Id, Attempt>)

  const EMPTY := Db(map[], map[])

  // ---------------------------------------------------------------- challenges

  const UNRESOLVED := {
    Authorized, AuthorizePending, RuntimeStaged, CancelPending, RuntimeConsuming,
    RuntimeCommittedUnverified, RuntimeVerified, NeedsAttention}

  predicate Blocked(db: Db, credential: Id) {
    exists i :: i in db.attempts && db.attempts[i].authority.credentialId == credential
                && db.attempts[i].state in UNRESOLVED
  }

  /**
   A cancellation that reports a clock going back.  A NULL code or terminal time
   leaves the comparison unknown, which does not make the trigger fire.
   */
  predicate MayBeRollback(c: Challenge, c': Challenge) {
    && c'.state == Cancelled && c'.resultCode in {None, Some("CLOCK_ROLLBACK_DETECTED")}
    && c'.lastObservedAt == c.lastObservedAt && c'.terminalAt in {None, Some(c.lastObservedAt)}
  }

  /** An attempt that justifies turning challenge `id` from `c` into the consumed `c'`. */
  predicate Justifies(a: Attempt, id: Id, c: Challenge, c': Challenge) {
    && a.challengeId == id && a.state == Authorized && a.authority == c.authority
    && c'.consumedRequestId == Some(a.authorizationRequestId)
    && c'.consumedAt == Some(a.authorizedAt) && c'.terminalAt == Some(a.authorizedAt)
    && c'.lastObservedAt == a.authorizedAt
  }

  predicate ChallengeUpdatable(db: Db, now: Time, id: Id, c: Challenge, c': Challenge) {
    // binding_immutable
    && c'.authority == c.authority && c'.binding == c.binding
    && (c.state != Issued ==> c'.retentionEligibleAt == c.retentionEligibleAt)
    // legal_transition
    && c.state == Issued
    && c'.lastObservedAt >= c.lastObservedAt
    && (c'.lastObservedAt > now ==> MayBeRollback(c, c'))
    && (now < c.lastObservedAt ==> MayBeRollback(c, c'))
    && (c'.state in {Issued, Consumed} ==> now < c.authority.expiresAt && c'.lastObservedAt == now)
    && (c'.state == Cancelled && c'.resultCode.Some? && c'.resultCode != Some("CLOCK_ROLLBACK_DETECTED")
        ==> c'.lastObservedAt == now)
    && (c'.state == Expired ==> now >= c.authority.expiresAt && c'.lastObservedAt == now)
    // consumed_attempt
    && (c'.state == Consumed ==>
          exists i :: i in db.attempts && Justifies(db.attempts[i], id, c, c'))
  }

  const CANCEL_CODES := {
    "CANCELLED_BY_ISSUER", "AUTH_EPOCH_ROTATED", "SESSION_REVOKED", "ADMIN_DEACTIVATED",
    "CONFIRMATION_MISMATCH", "BOUND_ENTITY_STALE", "CLOCK_ROLLBACK_DETECTED"}

  predicate TerminalForm(c: Challenge) {
    match c.state
    case Issued => false
    case Consumed =>
      && c.consumedAt == c.terminalAt && c.consumedRequestId.Some?
      && c.resultCode in {None, Some("ATTEMPT_CREATED")} && c.cancellationEpoch == 0
    case Cancelled =>
      && c.consumedAt.None? && c.consumedRequestId.None?
      && (c.resultCode.Some? ==> c.resultCode.value in CANCEL_CODES) && c.cancellationEpoch == 1
    case Expired =>
      && c.consumedAt.None? && c.consumedRequestId.None?
      && c.resultCode in {None, Some("DEADLINE_EXPIRED")} && c.cancellationEpoch == 0
  }

  predicate ChallengeDeletable(db: Db, now: Time, id: Id, c: Challenge) {
    && (forall i :: i in db.attempts ==> db.attempts[i].challengeId != id)
    && c.retentionEligibleAt.Some? && c.terminalAt.Some?
    && c.retentionEligibleAt.value == c.terminalAt.value + THIRTY_DAYS
    && TerminalForm(c) && now >= c.lastObservedAt && now >= c.retentionEligibleAt.value
  }

  // ------------------------------------------------------------------ attempts

  predicate AttemptMatches(db: Db, now: Time, a: Attempt) {
    && a.authorizedAt == a.updatedAt == a.createdAt == now && a.state == Authorized
    && a.challengeId in db.challenges
    && db.challenges[a.challengeId].state == Issued
    && db.challenges[a.challengeId].authority == a.authority
  }

  /** What the AFTER INSERT trigger writes into the challenge of a new attempt. */
  function ConsumedBy(c: Challenge, a: Attempt): Challenge {
    c.(state := Consumed, lastObservedAt := a.authorizedAt, terminalAt := Some(a.authorizedAt),
       consumedAt := Some(a.authorizedAt), consumedRequestId := Some(a.authorizationRequestId),
       resultCode := Some("ATTEMPT_CREATED"),
       retentionEligibleAt := Some(a.authorizedAt + THIRTY_DAYS))
  }

  predicate Arrow(s: AttemptState, s': AttemptState) {
    match s
    case Authorized => s' in {AuthorizePending, AttemptCancelled, AttemptExpired, NeedsAttention}
    case AuthorizePending =>
      s' in {RuntimeStaged, RuntimeConsuming, RuntimeCommittedUnverified, RuntimeVerified,
             CancelPending, AttemptExpired, NeedsAttention}
    case RuntimeStaged =>
      s' in {CancelPending, RuntimeConsuming, RuntimeCommittedUnverified, RuntimeVerified,
             AttemptExpired, NeedsAttention}
    case CancelPending =>
      s' in {AttemptCancelled, RuntimeConsuming, RuntimeCommittedUnverified, RuntimeVerified,
             AttemptExpired, NeedsAttention}
    case RuntimeConsuming => s' in {RuntimeCommittedUnverified, RuntimeVerified, NeedsAttention}
    case RuntimeCommittedUnverified => s' in {RuntimeVerified, NeedsAttention}
    case RuntimeVerified => s' in {Reconciled, NeedsAttention}
    case _ => false
  }

  /** The two ways in which an update may keep the state. */
  predicate Retry(now: Time, a: Attempt, a': Attempt) {
    && a.state == AuthorizePending
    && ((a'.authorizeResult == "RESEND_PERSISTED" && a.authorizeCount < 3
         && a'.authorizeCount == a.authorizeCount + 1 && a'.authorizeRequestedAt == Some(now)
         && a'.authorizeRequestId != a.authorizeRequestId)
        || (a'.authorizeResult == "STATUS_UNAVAILABLE" && a'.authorizeCount == a.authorizeCount
            && a'.authorizeRequestedAt == a.authorizeRequestedAt
            && a'.authorizeRequestId == a.authorizeRequestId))
  }

  /** `setsState`: the UPDATE names the state column, so that its trigger fires. */
  predicate AttemptUpdatable(now: Time, a: Attempt, a': Attempt, setsState: bool) {
    // authority_immutable
    && a'.challengeId == a.challengeId && a'.authority == a.authority
    && a'.authorizationRequestId == a.authorizationRequestId
    && a'.authorizedAt == a.authorizedAt && a'.createdAt == a.createdAt
    && (a.terminalAt.Some? ==> a'.retentionEligibleAt == a.retentionEligibleAt)
    // legal_transition
    && (if setsState then
          && Arrow(a.state, a'.state) && now >= a.updatedAt && a.updatedAt <= a'.updatedAt <= now
          && (a.state == Authorized && a'.state == AttemptCancelled ==> now < a.authority.expiresAt)
          && (a.state == Authorized && a'.state == AttemptExpired ==> now >= a.authority.expiresAt)
        else a'.state == a.state)
    // transition_consistency
    && now >= a.updatedAt && a'.updatedAt == now
    && (a'.state == a.state ==> Retry(now, a, a'))
    && (a'.state == Reconciled ==>
          a.state == RuntimeVerified && a.runtimeVerifiedAt.Some? && a.attestationCode.Some?)
  }

  predicate AttemptDeletable(now: Time, a: Attempt) {
    && a.state in {Reconciled, AttemptCancelled, AttemptExpired}
    && a.retentionEligibleAt.Some? && a.terminalAt.Some?
    && a.retentionEligibleAt.value == a.terminalAt.value + THIRTY_DAYS
    && now >= a.updatedAt && now >= a.retentionEligibleAt.value
  }

  // ---------------------------------------------------------------- statements

  datatype Statement =
    | InsertChallenge(id: Id, c: Challenge)
    | UpdateChallenge(id: Id, c: Challenge)
    | DeleteChallenge(id: Id)
    | InsertAttempt(id: Id, a: Attempt)
    | UpdateAttempt(id: Id, a: Attempt, setsState: bool)
    | DeleteAttempt(id: Id)

  /** The triggers let `st` through at time `now`. */
  predicate Permitted(db: Db, clock: Option<Time>, st: Statement) {
    match st
    case InsertChallenge(id, c) => id !in db.challenges && !Blocked(db, c.authority.credentialId)
    case UpdateChallenge(id, c) =>
      id in db.challenges && clock.Some? && ChallengeUpdatable(db, clock.value, id, db.challenges[id], c)
    case DeleteChallenge(id) =>
      id in db.challenges && clock.Some? && ChallengeDeletable(db, clock.value, id, db.challenges[id])
    case InsertAttempt(id, a) =>
      && id !in db.attempts && clock.Some? && AttemptMatches(db, clock.value, a)
      && var c := db.challenges[a.challengeId];
         && c.cancellationEpoch == a.authority.initialCancellationEpoch
         && ChallengeUpdatable(db.(attempts := db.attempts[id := a]), clock.value, a.challengeId,
                               c, ConsumedBy(c, a))
    case UpdateAttempt(id, a, setsState) =>
      id in db.attempts && clock.Some? && AttemptUpdatable(clock.value, db.attempts[id], a, setsState)
    case DeleteAttempt(id) =>
      id in db.attempts && clock.Some? && AttemptDeletable(clock.value, db.attempts[id])
  }

  function Effect(db: Db, clock: Option<Time>, st: Statement): Db
    requires Permitted(db, clock, st)
  {
    match st
    case InsertChallenge(id, c) => db.(challenges := db.challenges[id := c])
    case UpdateChallenge(id, c) => db.(challenges := db.challenges[id := c])
    case DeleteChallenge(id) => db.(challenges := db.challenges - {id})
    case InsertAttempt(id, a) =>
      Db(db.challenges[a.challengeId := ConsumedBy(db.challenges[a.challengeId], a)], db.attempts[id := a])
    case UpdateAttempt(id, a, _) => db.(attempts := db.attempts[id := a])
    case DeleteAttempt(id) => db.(attempts := db.attempts - {id})
  }

  ghost predicate Next(db: Db, db': Db) {
    exists clock, st :: Permitted(db, clock, st) && db' == Effect(db, clock, st)
  }

  ghost predicate NextAt(dbs: seq<Db>, k: nat) {
    k + 1 < |dbs| ==> Next(dbs[k], dbs[k + 1])
  }

  /** Consecutive states of a database, under any statements at any clock readings. */
  ghost predicate Run(dbs: seq<Db>) {
    forall k: nat :: NextAt(dbs, k)
  }

  // ---------------------------------------------------------------- invariants

  /** The challenge of `a` is present, was consumed by `a`, and in time. */
  predicate Bound(db: Db, a: Attempt) {
    && a.challengeId in db.challenges
    && var c := db.challenges[a.challengeId];
       && c.state == Consumed && c.authority == a.authority
       && c.consumedRequestId == Some(a.authorizationRequestId)
       && c.consumedAt == Some(a.authorizedAt) && c.terminalAt == Some(a.authorizedAt)
       && a.authorizedAt < c.authority.expiresAt
       && c.lastObservedAt == a.authorizedAt && c.resultCode == Some("ATTEMPT_CREATED")
       && c.retentionEligibleAt == Some(a.authorizedAt + THIRTY_DAYS)
  }

  predicate Inv(db: Db) {
    && (forall i :: i in db.attempts ==> Bound(db, db.attempts[i]))
    && (forall i, j :: i in db.attempts && j in db.attempts ==>
          db.attempts[i].challengeId == db.attempts[j].challengeId ==> i == j)
  }

  /** Whatever the clock says, no UPDATE of a challenge can consume it. */
  lemma NoDirectConsume(db: Db, clock: Option<Time>, id: Id, c: Challenge)
    requires Inv(db) && Permitted(db, clock, UpdateChallenge(id, c))
    ensures db.challenges[id].state == Issued && c.state != Consumed
  {
  }

  lemma InsertAttemptInv(db: Db, clock: Option<Time>, id: Id, a: Attempt)
    requires Inv(db) && Permitted(db, clock, InsertAttempt(id, a))
    ensures Inv(Effect(db, clock, InsertAttempt(id, a)))
  {
  }

  lemma UpdateAttemptInv(db: Db, clock: Option<Time>, id: Id, a: Attempt, setsState: bool)
    requires Inv(db) && Permitted(db, clock, UpdateAttempt(id, a, setsState))
    ensures Inv(Effect(db, clock, UpdateAttempt(id, a, setsState)))
  {
  }

  lemma ChallengeStatementInv(db: Db, clock: Option<Time>, st: Statement)
    requires Inv(db) && Permitted(db, clock, st)
    requires st.InsertChallenge? || st.UpdateChallenge? || st.DeleteChallenge?
    ensures Inv(Effect(db, clock, st))
  {
  }

  lemma StepInv(db: Db, db': Db)
    requires Inv(db) && Next(db, db')
    ensures Inv(db')
  {
    var clock, st :| Permitted(db, clock, st) && db' == Effect(db, clock, st);
    match st
    case InsertAttempt(id, a) => InsertAttemptInv(db, clock, id, a);
    case UpdateAttempt(id, a, setsState) => UpdateAttemptInv(db, clock, id, a, setsState);
    case DeleteAttempt(_) =>
    case _ => ChallengeStatementInv(db, clock, st);
  }

  /** Every attempt of every reachable database is bound to one consumed challenge of its own. */
  lemma {:induction false} AlwaysBound(dbs: seq<Db>, n: nat)
    requires Run(dbs) && n < |dbs| && dbs[0] == EMPTY
    ensures Inv(dbs[n])
  {
    if n > 0 {
      AlwaysBound(dbs, n - 1);
      assert NextAt(dbs, n - 1);
      StepInv(dbs[n - 1], dbs[n]);
    }
  }

  predicate Serves(db: Db, challenge: Id, attempt: Id) {
    attempt in db.attempts && db.attempts[attempt].challengeId == challenge
  }

  /** A consumed challenge stays as it is while it is kept, and gets no new attempt. */
  lemma ConsumedStep(db: Db, db': Db, challenge: Id, attempt: Id)
    requires Next(db, db') && challenge in db.challenges && challenge in db'.challenges
    requires db.challenges[challenge].state == Consumed
    ensures db'.challenges[challenge] == db.challenges[challenge]
    ensures Serves(db', challenge, attempt) ==> Serves(db, challenge, attempt)
  {
    var clock, st :| Permitted(db, clock, st) && db' == Effect(db, clock, st);
  }

  /** Over the whole time that a challenge is kept, at most one attempt ever belongs to it. */
  lemma ChallengeServesOnce(dbs: seq<Db>, challenge: Id, x: Id, y: Id, i: nat, j: nat)
    requires Run(dbs) && i <= j < |dbs| && dbs[0] == EMPTY
    requires forall k :: i <= k <= j ==> challenge in dbs[k].challenges
    requires Serves(dbs[i], challenge, x) && Serves(dbs[j], challenge, y)
    ensures x == y
    ensures dbs[j].challenges[challenge] == dbs[i].challenges[challenge]
  {
    AlwaysBound(dbs, i);
    assert Bound(dbs[i], dbs[i].attempts[x]);
    ConsumedForward(dbs, challenge, y, i, j);
  }

  lemma {:induction false} ConsumedForward(dbs: seq<Db>, challenge: Id, y: Id, i: nat, j: nat)
    requires Run(dbs) && i <= j < |dbs|
    requires forall k :: i <= k <= j ==> challenge in dbs[k].challenges
    requires dbs[i].challenges[challenge].state == Consumed
    ensures dbs[j].challenges[challenge] == dbs[i].challenges[challenge]
    ensures Serves(dbs[j], challenge, y) ==> Serves(dbs[i], challenge, y)
    decreases j - i
  {
    if i < j {
      ConsumedForward(dbs, challenge, y, i, j - 1);
      assert NextAt(dbs, j - 1);
      ConsumedStep(dbs[j - 1], dbs[j], challenge, y);
    }
  }

  // ------------------------------------------------------------------ attempts in time

  function Rank(s: AttemptState): nat {
    match s
    case Authorized => 0
    case AuthorizePending => 1
    case RuntimeStaged => 2
    case CancelPending => 3
    case RuntimeConsuming => 4
    case RuntimeCommittedUnverified => 5
    case RuntimeVerified => 6
    case _ => 7
  }

  /** The runtime has started to consume the secret, or the attempt needs an operator. */
  predicate Underway(s: AttemptState) {
    s in {RuntimeConsuming, RuntimeCommittedUnverified, RuntimeVerified, Reconciled, NeedsAttention}
  }

  /** What one statement may do to an attempt that survives it. */
  predicate Moved(a: Attempt, a': Attempt) {
    || a' == a
    || (&& a'.updatedAt >= a.updatedAt && (a'.state == a.state || Arrow(a.state, a'.state))
        && a'.challengeId == a.challengeId && a'.authority == a.authority
        && a'.authorizationRequestId == a.authorizationRequestId
        && a'.authorizedAt == a.authorizedAt && a'.createdAt == a.createdAt)
  }

  lemma StepMoves(db: Db, db': Db, id: Id)
    requires Next(db, db') && id in db.attempts && id in db'.attempts
    ensures Moved(db.attempts[id], db'.attempts[id])
  {
    var clock, st :| Permitted(db, clock, st) && db' == Effect(db, clock, st);
  }

  /** What a move means for the rank, the clock and the outcome of an attempt. */
  lemma MoveRises(a: Attempt, a': Attempt)
    requires Moved(a, a')
    ensures Rank(a.state) + (if a'.state == a.state then 0 else 1) <= Rank(a'.state)
    ensures a.updatedAt <= a'.updatedAt && (Underway(a.state) ==> Underway(a'.state))
  {
  }

  /** Attempt `id` lives through all of `dbs`. */
  ghost predicate Life(dbs: seq<Db>, id: Id) {
    Run(dbs) && forall k :: 0 <= k < |dbs| ==> id in dbs[k].attempts
  }

  /** Number of state changes of attempt `id` among the first `n + 1` states. */
  ghost function Changes(dbs: seq<Db>, id: Id, n: nat): nat
    requires n < |dbs| && Life(dbs, id)
  {
    if n == 0 then 0
    else Changes(dbs, id, n - 1)
         + if dbs[n].attempts[id].state == dbs[n - 1].attempts[id].state then 0 else 1
  }

  /**
   The history of an attempt from state `i` to state `j` of a run: its rank
   never falls, its clock never goes back, what was authorized stays, and once
   underway it is never cancelled or expired.
   */
  lemma {:induction false} AttemptHistory(dbs: seq<Db>, id: Id, i: nat, j: nat)
    requires Life(dbs, id) && i <= j < |dbs|
    ensures var a, b := dbs[i].attempts[id], dbs[j].attempts[id];
            && Rank(a.state) + Changes(dbs, id, j) - Changes(dbs, id, i) <= Rank(b.state)
            && a.updatedAt <= b.updatedAt
            && (Underway(a.state) ==> Underway(b.state))
            && b.challengeId == a.challengeId && b.authority == a.authority
            && b.authorizationRequestId == a.authorizationRequestId
            && b.authorizedAt == a.authorizedAt && b.createdAt == a.createdAt
    decreases j - i
  {
    if i < j {
      AttemptHistory(dbs, id, i, j - 1);
      assert NextAt(dbs, j - 1);
      StepMoves(dbs[j - 1], dbs[j], id);
      MoveRises(dbs[j - 1].attempts[id], dbs[j].attempts[id]);
    }
  }

  lemma AtMostSevenChanges(dbs: seq<Db>, id: Id)
    requires Life(dbs, id) && dbs != []
    ensures Changes(dbs, id, |dbs| - 1) <= 7
  {
    AttemptHistory(dbs, id, 0, |dbs| - 1);
  }

  lemma StepReconciles(db: Db, db': Db, id: Id)
    requires Next(db, db') && id in db.attempts && id in db'.attempts
    requires db'.attempts[id].state == Reconciled && db.attempts[id].state != Reconciled
    ensures db.attempts[id].runtimeVerifiedAt.Some? && db.attempts[id].attestationCode.Some?
  {
    var clock, st :| Permitted(db, clock, st) && db' == Effect(db, clock, st);
  }

  /** An attempt that gets reconciled was verified in the state just before. */
  lemma {:induction false} ReconciledThroughVerified(dbs: seq<Db>, id: Id, n: nat) returns (k: nat)
    requires Life(dbs, id) && n < |dbs|
    requires dbs[0].attempts[id].state != Reconciled && dbs[n].attempts[id].state == Reconciled
    ensures k < n && dbs[k].attempts[id].state == RuntimeVerified
    ensures dbs[k].attempts[id].runtimeVerifiedAt.Some? && dbs[k].attempts[id].attestationCode.Some?
    ensures dbs[k + 1].attempts[id].state == Reconciled
  {
    assert NextAt(dbs, n - 1);
    StepMoves(dbs[n - 1], dbs[n], id);
    if dbs[n - 1].attempts[id].state == Reconciled {
      k := ReconciledThroughVerified(dbs, id, n - 1);
    } else {
      StepReconciles(dbs[n - 1], dbs[n], id);
      k := n - 1;
    }
  }

  /** Needing attention is for ever, and keeps new challenges of the credential away for ever. */
  lemma {:induction false} AttentionBlocksForever(dbs: seq<Db>, id: Id, i: nat, j: nat, challenge: Id)
    requires Run(dbs) && i <= j < |dbs|
    requires id in dbs[i].attempts && dbs[i].attempts[id].state == NeedsAttention
    ensures id in dbs[j].attempts && dbs[j].attempts[id] == dbs[i].attempts[id]
    ensures && challenge in dbs[j].challenges
            && dbs[j].challenges[challenge].authority.credentialId
               == dbs[i].attempts[id].authority.credentialId
            ==> challenge in dbs[i].challenges
    decreases j - i
  {
    if i < j {
      AttentionBlocksForever(dbs, id, i, j - 1, challenge);
      assert NextAt(dbs, j - 1);
      AttentionStep(dbs[j - 1], dbs[j], id, challenge);
    }
  }

  lemma AttentionStep(db: Db, db': Db, id: Id, challenge: Id)
    requires Next(db, db') && id in db.attempts && db.attempts[id].state == NeedsAttention
    ensures id in db'.attempts && db'.attempts[id] == db.attempts[id]
    ensures challenge in db'.challenges
            && db'.challenges[challenge].authority.credentialId == db.attempts[id].authority.credentialId
            ==> challenge in db.challenges
                && db.challenges[challenge].authority.credentialId == db.attempts[id].authority.credentialId
  {
    var clock, st :| Permitted(db, clock, st) && db' == Effect(db, clock, st);
    AttentionFrozen(db, clock, st, id);
    AttentionBlocks(db, id);
    if challenge in db'.challenges {
      CredentialKept(db, clock, st, challenge);
    }
  }

  /** No statement changes or removes an attempt that needs attention. */
  lemma AttentionFrozen(db: Db, clock: Option<Time>, st: Statement, id: Id)
    requires Permitted(db, clock, st) && id in db.attempts && db.attempts[id].state == NeedsAttention
    ensures id in Effect(db, clock, st).attempts && Effect(db, clock, st).attempts[id] == db.attempts[id]
  {
  }

  /** A challenge is new, for a credential that is not blocked, or has the credential it had. */
  lemma CredentialKept(db: Db, clock: Option<Time>, st: Statement, challenge: Id)
    requires Permitted(db, clock, st) && challenge in Effect(db, clock, st).challenges
    ensures var credential := Effect(db, clock, st).challenges[challenge].authority.credentialId;
            if challenge in db.challenges then db.challenges[challenge].authority.credentialId == credential
            else !Blocked(db, credential)
  {
  }

  lemma AttentionBlocks(db: Db, id: Id)
    requires id in db.attempts && db.attempts[id].state == NeedsAttention
    ensures Blocked(db, db.attempts[id].authority.credentialId)
  {
  }

  // ---------------------------------------------------------------- the engine

  lemma RunSnoc(dbs: seq<Db>, db: Db)
    requires Run(dbs) && dbs != [] && Next(dbs[|dbs| - 1], db)
    ensures Run(dbs + [db])
  {
    forall k: nat
      ensures NextAt(dbs + [db], k)
    {
      assert NextAt(dbs, k);
    }
  }

  /**
   The two tables, changed by single-row statements under their triggers.
   `history` are the states so far: a run from the empty database.
   */
  class Tables {
    var challenges: map<Id, Challenge>
    var attempts: map<Id, Attempt>
    ghost var history: seq<Db>

    constructor ()
      ensures Valid() && Snapshot() == EMPTY && history == [EMPTY]
    {
      challenges := map[];
      attempts := map[];
      history := [EMPTY];
    }

    ghost function Snapshot(): Db
      reads this
    {
      Db(challenges, attempts)
    }

    ghost predicate Valid()
      reads this
    {
      history != [] && history[0] == EMPTY && Run(history) && history[|history| - 1] == Snapshot()
    }

    /** The state of a valid object is one that the theorems about runs speak of. */
    lemma Reached()
      requires Valid()
      ensures Inv(Snapshot())
    {
      AlwaysBound(history, |history| - 1);
    }

    /** Notes the state that statement `st` has led to. */
    ghost method Record(clock: Option<Time>, st: Statement)
      requires history != [] && history[0] == EMPTY && Run(history)
      requires Permitted(history[|history| - 1], clock, st)
      requires Snapshot() == Effect(history[|history| - 1], clock, st)
      modifies this`history
      ensures Valid() && history == old(history) + [Snapshot()]
    {
      RunSnoc(history, Snapshot());
      history := history + [Snapshot()];
    }

    /** Inserts the row, fires the consuming trigger, and rolls back when anything aborts. */
    method AddAttempt(id: Id, a: Attempt, clock: Option<Time>, admitted: bool) returns (ok: bool)
      requires Valid()
      modifies this
      ensures Valid() && history == if ok then old(history) + [Snapshot()] else old(history)
      ensures ok <==> admitted && Permitted(old(Snapshot()), clock, InsertAttempt(id, a))
      ensures Snapshot() == if ok then Effect(old(Snapshot()), clock, InsertAttempt(id, a))
                            else old(Snapshot())
      ensures ok ==> id in attempts && attempts[id] == a && Bound(Snapshot(), a)
      ensures Inv(Snapshot())
      ensures ok ==> forall i :: i in old(attempts) ==> old(attempts)[i].challengeId != a.challengeId
    {
      Reached();
      if id in attempts || clock.None? || !AttemptMatches(Db(challenges, attempts), clock.value, a) {
        return false;
      }
      var savepoint := attempts;
      attempts := attempts[id := a];
      var c := challenges[a.challengeId];
      var c' := ConsumedBy(c, a);
      if c.cancellationEpoch != a.authority.initialCancellationEpoch
         || !ChallengeUpdatable(Db(challenges, attempts), clock.value, a.challengeId, c, c')
         || !admitted {
        attempts := savepoint;
        return false;
      }
      challenges := challenges[a.challengeId := c'];
      Record(clock, InsertAttempt(id, a));
      Reached();
      return true;
    }

    /**
     One statement.  Every state on record stays in the history of a run, every
     attempt stays bound, and no challenge that was there is consumed but by a new attempt.
     */
    method Execute(st: Statement, clock: Option<Time>, admitted: bool) returns (ok: bool)
      requires Valid()
      modifies this
      ensures Valid() && history == if ok then old(history) + [Snapshot()] else old(history)
      ensures ok <==> admitted && Permitted(old(Snapshot()), clock, st)
      ensures Snapshot() == if ok then Effect(old(Snapshot()), clock, st) else old(Snapshot())
      ensures Inv(Snapshot())
      ensures !st.InsertAttempt? ==> forall id ::
                id in old(challenges) && id in challenges && challenges[id].state == Consumed ==>
                  challenges[id] == old(challenges)[id]
    {
      if st.InsertAttempt? {
        ok := AddAttempt(st.id, st.a, clock, admitted);
        return;
      }
      Reached();
      ok := admitted && Permitted(Db(challenges, attempts), clock, st);
      if ok {
        match st {
          case InsertChallenge(id, c) => challenges := challenges[id := c];
          case UpdateChallenge(id, c) => challenges := challenges[id := c];
          case DeleteChallenge(id) => challenges := challenges - {id};
          case UpdateAttempt(id, a, _) => attempts := attempts[id := a];
          case DeleteAttempt(id) => attempts := attempts - {id};
        }
        Record(clock, st);
        Reached();
      }
    }
  }
}
