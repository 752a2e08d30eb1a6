/**
 What the triggers of revision 0005 amount to: for each kind of statement the
 exact condition under which it goes through, and what that means for deadlines,
 retention and blocked credentials along a run.
 */
module ApprovalLaws {
  import opened Approval
  import opened Common

  /** Thirty days in microseconds. */
  const RETENTION: Time := 2_592_000_000_000

  // ---------------------------------------------------------------- challenges

  /**
   An attempt can be authorized exactly at its own creation time, for an issued
   challenge with the same authority that is neither cancelled nor expired, under
   a clock that has not gone back.
   */
  lemma AuthorizeExactly(db: Db, now: Time, id: Id, a: Attempt)
    ensures Permitted(db, Some(now), InsertAttempt(id, a)) <==>
            && id !in db.attempts && a.state == Authorized
            && a.authorizedAt == now && a.updatedAt == now && a.createdAt == now
            && a.challengeId in db.challenges
            && var c := db.challenges[a.challengeId];
               && c.state == Issued && c.authority == a.authority
               && c.cancellationEpoch == c.authority.initialCancellationEpoch
               && c.lastObservedAt <= now < c.authority.expiresAt
  {
    if id !in db.attempts && AttemptMatches(db, now, a) {
      var db' := db.(attempts := db.attempts[id := a]);
      assert Justifies(db'.attempts[id], a.challengeId, db.challenges[a.challengeId],
                       ConsumedBy(db.challenges[a.challengeId], a));
    }
  }

  /** The columns that no update of a challenge may change. */
  predicate SameBinding(c: Challenge, c': Challenge) {
    c'.authority == c.authority && c'.binding == c.binding
  }

  /** Under a clock that has gone back an issued challenge can only be cancelled, where it was last seen. */
  lemma RollbackExactly(db: Db, now: Time, id: Id, c': Challenge)
    requires id in db.challenges && now < db.challenges[id].lastObservedAt
    ensures var c := db.challenges[id];
            Permitted(db, Some(now), UpdateChallenge(id, c')) <==>
            && c.state == Issued && SameBinding(c, c') && c'.state == Cancelled
            && c'.resultCode in {None, Some("CLOCK_ROLLBACK_DETECTED")}
            && c'.lastObservedAt == c.lastObservedAt && c'.terminalAt in {None, Some(c.lastObservedAt)}
  {
  }

  /** Under any other clock it is observed before, expired from, and cancelled around the deadline. */
  lemma UpdateExactly(db: Db, now: Time, id: Id, c': Challenge)
    requires Inv(db) && id in db.challenges && db.challenges[id].lastObservedAt <= now
    ensures var c := db.challenges[id];
            Permitted(db, Some(now), UpdateChallenge(id, c')) <==>
            && c.state == Issued && SameBinding(c, c')
            && match c'.state
               case Issued => now < c.authority.expiresAt && c'.lastObservedAt == now
               case Consumed => false
               case Expired => now >= c.authority.expiresAt && c'.lastObservedAt == now
               case Cancelled =>
                 if c'.resultCode in {None, Some("CLOCK_ROLLBACK_DETECTED")}
                 then c.lastObservedAt <= c'.lastObservedAt <= now
                 else c'.lastObservedAt == now
  {
    if Permitted(db, Some(now), UpdateChallenge(id, c')) {
      NoDirectConsume(db, Some(now), id, c');
    }
  }

  /** What a challenge that is deleted had to be: closed, unused for thirty days and without an attempt. */
  lemma DeletedChallenge(db: Db, now: Time, id: Id)
    requires Permitted(db, Some(now), DeleteChallenge(id))
    ensures var c := db.challenges[id];
            && c.state != Issued && c.terminalAt.Some? && now >= c.terminalAt.value + RETENTION
            && now >= c.lastObservedAt
            && (forall i :: i in db.attempts ==> db.attempts[i].challengeId != id)
            && (c.consumedRequestId.Some? <==> c.state == Consumed)
            && c.cancellationEpoch == (if c.state == Cancelled then 1 else 0)
  {
  }

  /** The result code of a challenge that is deleted, unless it is NULL, belongs to the way it was closed. */
  lemma DeletedCode(db: Db, now: Time, id: Id, code: string)
    requires Permitted(db, Some(now), DeleteChallenge(id)) && db.challenges[id].resultCode == Some(code)
    ensures db.challenges[id].state == Consumed ==> code == "ATTEMPT_CREATED"
    ensures db.challenges[id].state == Expired ==> code == "DEADLINE_EXPIRED"
    ensures db.challenges[id].state == Cancelled ==>
            || code == "CANCELLED_BY_ISSUER" || code == "AUTH_EPOCH_ROTATED" || code == "SESSION_REVOKED"
            || code == "ADMIN_DEACTIVATED" || code == "CONFIRMATION_MISMATCH" || code == "BOUND_ENTITY_STALE"
            || code == "CLOCK_ROLLBACK_DETECTED"
  {
    var c := db.challenges[id];
    assert c.state == Cancelled ==> c.resultCode.value in CANCEL_CODES;
    assert c.state == Consumed ==> c.resultCode == Some("ATTEMPT_CREATED");
    assert c.state == Expired ==> c.resultCode == Some("DEADLINE_EXPIRED");
  }

  /**
   A challenge closed in the regular way can be deleted exactly thirty days
   later, once no attempt refers to it.
   */
  lemma ClosedDeletable(db: Db, now: Time, id: Id)
    requires id in db.challenges && (forall i :: i in db.attempts ==> db.attempts[i].challengeId != id)
    requires var c := db.challenges[id];
             && c.terminalAt == Some(c.lastObservedAt) && c.retentionEligibleAt == Some(c.lastObservedAt + RETENTION)
             && ((c.state == Expired && c.resultCode == Some("DEADLINE_EXPIRED") && c.cancellationEpoch == 0)
                 || (c.state == Cancelled && c.cancellationEpoch == 1
                     && c.resultCode in {Some("CANCELLED_BY_ISSUER"), Some("AUTH_EPOCH_ROTATED"), Some("SESSION_REVOKED"),
                                         Some("ADMIN_DEACTIVATED"), Some("CONFIRMATION_MISMATCH"),
                                         Some("BOUND_ENTITY_STALE"), Some("CLOCK_ROLLBACK_DETECTED")}))
             && c.consumedAt.None? && c.consumedRequestId.None?
    ensures Permitted(db, Some(now), DeleteChallenge(id)) <==> now >= db.challenges[id].lastObservedAt + RETENTION
  {
  }

  /**
   Along a run: from the state in which attempt `x` holds a challenge that was
   not cancelled, the challenge can be deleted exactly when no attempt holds it
   any more and thirty days have passed since the authorization.
   */
  lemma ConsumedPurgedExactly(dbs: seq<Db>, challenge: Id, x: Id, i: nat, j: nat, now: Time)
    requires Run(dbs) && i <= j < |dbs| && dbs[0] == EMPTY
    requires forall k :: i <= k <= j ==> challenge in dbs[k].challenges
    requires Serves(dbs[i], challenge, x) && dbs[i].challenges[challenge].cancellationEpoch == 0
    ensures Permitted(dbs[j], Some(now), DeleteChallenge(challenge)) <==>
            && (forall y :: !Serves(dbs[j], challenge, y))
            && now >= dbs[i].attempts[x].authorizedAt + RETENTION
  {
    AlwaysBound(dbs, i);
    assert Bound(dbs[i], dbs[i].attempts[x]);
    ConsumedForward(dbs, challenge, x, i, j);
    assert (forall y :: !Serves(dbs[j], challenge, y)) <==>
           forall k :: k in dbs[j].attempts ==> dbs[j].attempts[k].challengeId != challenge by {
      forall k | k in dbs[j].attempts
        ensures Serves(dbs[j], challenge, k) <==> dbs[j].attempts[k].challengeId == challenge
      {
      }
    }
  }

  /** One step of a challenge that is kept. */
  lemma ChallengeStep(db: Db, db': Db, id: Id)
    requires Next(db, db') && id in db.challenges && id in db'.challenges
    ensures var c, c' := db.challenges[id], db'.challenges[id];
            && SameBinding(c, c') && c.lastObservedAt <= c'.lastObservedAt
            && (c.state != Issued ==> c' == c)
            && (c' != c && c'.state in {Issued, Consumed} ==> c'.lastObservedAt < c.authority.expiresAt)
            && (c' != c && c'.state == Expired ==> c'.lastObservedAt >= c.authority.expiresAt)
  {
    var clock, st :| Permitted(db, clock, st) && db' == Effect(db, clock, st);
  }

  /** A challenge keeps its binding, is never observed back in time, and once closed never changes. */
  lemma {:induction false} ChallengeHistory(dbs: seq<Db>, id: Id, i: nat, j: nat)
    requires Run(dbs) && i <= j < |dbs|
    requires forall k :: i <= k <= j ==> id in dbs[k].challenges
    ensures var c, c' := dbs[i].challenges[id], dbs[j].challenges[id];
            && SameBinding(c, c') && c.lastObservedAt <= c'.lastObservedAt
            && (c.state != Issued ==> c' == c)
            && (c' != c && c'.state in {Issued, Consumed} ==> c'.lastObservedAt < c.authority.expiresAt)
            && (c' != c && c'.state == Expired ==> c'.lastObservedAt >= c.authority.expiresAt)
    decreases j - i
  {
    if i < j {
      ChallengeHistory(dbs, id, i, j - 1);
      assert NextAt(dbs, j - 1);
      ChallengeStep(dbs[j - 1], dbs[j], id);
    }
  }

  // ------------------------------------------------------------------ attempts

  const RESOLVED := {Reconciled, AttemptCancelled, AttemptExpired}

  /** The arrows, told by where they lead. */
  lemma ArrowsByTarget(s: AttemptState)
    ensures forall f :: Arrow(f, s) <==>
            match s
            case Authorized => false
            case AuthorizePending => f == Authorized
            case RuntimeStaged => f == AuthorizePending
            case CancelPending => f in {AuthorizePending, RuntimeStaged}
            case RuntimeConsuming => f in {AuthorizePending, RuntimeStaged, CancelPending}
            case RuntimeCommittedUnverified => f in {AuthorizePending, RuntimeStaged, CancelPending, RuntimeConsuming}
            case RuntimeVerified =>
              f in {AuthorizePending, RuntimeStaged, CancelPending, RuntimeConsuming, RuntimeCommittedUnverified}
            case Reconciled => f == RuntimeVerified
            case AttemptCancelled => f in {Authorized, CancelPending}
            case AttemptExpired => f in {Authorized, AuthorizePending, RuntimeStaged, CancelPending}
            case NeedsAttention => f !in RESOLVED && f != NeedsAttention
  {
  }

  predicate SameAuthority(a: Attempt, a': Attempt) {
    && a'.challengeId == a.challengeId && a'.authority == a.authority
    && a'.authorizationRequestId == a.authorizationRequestId
    && a'.authorizedAt == a.authorizedAt && a'.createdAt == a.createdAt
    && (a.terminalAt.Some? ==> a'.retentionEligibleAt == a.retentionEligibleAt)
  }

  /** A change of state goes through exactly along an arrow, now, and on the right side of the deadline. */
  lemma ChangeExactly(db: Db, now: Time, id: Id, a': Attempt)
    requires id in db.attempts && a'.state != db.attempts[id].state
    ensures var a := db.attempts[id];
            Permitted(db, Some(now), UpdateAttempt(id, a', true)) <==>
            && SameAuthority(a, a') && Arrow(a.state, a'.state) && a.updatedAt <= now && a'.updatedAt == now
            && (a.state == Authorized && a'.state == AttemptCancelled ==> now < a.authority.expiresAt)
            && (a.state == Authorized && a'.state == AttemptExpired ==> a.authority.expiresAt <= now)
            && (a'.state == Reconciled ==> a.runtimeVerifiedAt.Some? && a.attestationCode.Some?)
    ensures !Permitted(db, Some(now), UpdateAttempt(id, a', false))
  {
  }

  /** The state is kept exactly by a resend, of which there are at most three, or by a failed enquiry. */
  lemma RetryExactly(db: Db, now: Time, id: Id, a': Attempt)
    requires id in db.attempts && a'.state == db.attempts[id].state
    ensures var a := db.attempts[id];
            Permitted(db, Some(now), UpdateAttempt(id, a', false)) <==>
            && SameAuthority(a, a') && a.updatedAt <= now && a'.updatedAt == now && a.state == AuthorizePending
            && if a'.authorizeCount == a.authorizeCount
               then a'.authorizeResult == "STATUS_UNAVAILABLE" && a'.authorizeRequestedAt == a.authorizeRequestedAt
                    && a'.authorizeRequestId == a.authorizeRequestId
               else a'.authorizeResult == "RESEND_PERSISTED" && a'.authorizeCount == a.authorizeCount + 1 <= 3
                    && a'.authorizeRequestedAt == Some(now) && a'.authorizeRequestId != a.authorizeRequestId
    ensures !Permitted(db, Some(now), UpdateAttempt(id, a', true))
  {
  }

  /** Only resolved attempts are ever deleted, thirty days after they ended. */
  lemma DeletedAttempt(db: Db, now: Time, id: Id)
    requires id in db.attempts
    ensures var a := db.attempts[id];
            Permitted(db, Some(now), DeleteAttempt(id)) <==>
            && a.state in RESOLVED && a.terminalAt.Some?
            && a.retentionEligibleAt == Some(a.terminalAt.value + RETENTION)
            && now >= a.updatedAt && now >= a.terminalAt.value + RETENTION
  {
  }

  /** One step of an attempt that is authorized only: cancelled before, expired from the deadline on. */
  lemma DeadlineStep(db: Db, db': Db, id: Id)
    requires Next(db, db') && id in db.attempts && id in db'.attempts && db.attempts[id].state == Authorized
    ensures var a, a' := db.attempts[id], db'.attempts[id];
            && (a'.state == AttemptCancelled ==> a'.updatedAt < a.authority.expiresAt)
            && (a'.state == AttemptExpired ==> a'.updatedAt >= a.authority.expiresAt)
  {
    var clock, st :| Permitted(db, clock, st) && db' == Effect(db, clock, st);
  }

  /** While authorization is pending the number of resends never falls and never passes three. */
  lemma {:induction false} ResendsBounded(dbs: seq<Db>, id: Id, i: nat, j: nat)
    requires Life(dbs, id) && i <= j < |dbs|
    requires forall k :: i <= k <= j ==> dbs[k].attempts[id].state == AuthorizePending
    ensures dbs[i].attempts[id].authorizeCount <= dbs[j].attempts[id].authorizeCount
    ensures dbs[j].attempts[id].authorizeCount <= Max(3, dbs[i].attempts[id].authorizeCount)
    decreases j - i
  {
    if i < j {
      ResendsBounded(dbs, id, i, j - 1);
      assert NextAt(dbs, j - 1);
      ResendStep(dbs[j - 1], dbs[j], id);
    }
  }

  lemma ResendStep(db: Db, db': Db, id: Id)
    requires Next(db, db') && id in db.attempts && id in db'.attempts
    requires db.attempts[id].state == AuthorizePending && db'.attempts[id].state == AuthorizePending
    ensures var n, n' := db.attempts[id].authorizeCount, db'.attempts[id].authorizeCount;
            n' == n || (n < 3 && n' == n + 1)
  {
    var clock, st :| Permitted(db, clock, st) && db' == Effect(db, clock, st);
  }

  // ---------------------------------------------------------------- blocked credentials

  /** A credential is blocked exactly by an attempt that is not resolved. */
  lemma BlockedExactly(db: Db, credential: Id)
    ensures Blocked(db, credential) <==>
            exists i :: i in db.attempts && db.attempts[i].authority.credentialId == credential
                        && db.attempts[i].state !in RESOLVED
  {
    forall i | i in db.attempts
      ensures db.attempts[i].state in UNRESOLVED <==> db.attempts[i].state !in RESOLVED
    {
      EitherResolved(db.attempts[i].state);
    }
  }

  lemma EitherResolved(s: AttemptState)
    ensures s in UNRESOLVED <==> s !in RESOLVED
  {
    match s
    case Reconciled =>
    case AttemptCancelled =>
    case AttemptExpired =>
    case _ =>
  }

  /** As long as an attempt is not resolved, no challenge is added for its credential. */
  lemma {:induction false} UnresolvedBlocks(dbs: seq<Db>, id: Id, i: nat, j: nat, challenge: Id)
    requires Run(dbs) && i <= j < |dbs|
    requires forall k :: i <= k <= j ==> id in dbs[k].attempts && dbs[k].attempts[id].state !in RESOLVED
    requires challenge in dbs[j].challenges
    requires dbs[j].challenges[challenge].authority.credentialId == dbs[i].attempts[id].authority.credentialId
    ensures challenge in dbs[i].challenges
    decreases j - i
  {
    if i < j {
      assert NextAt(dbs, j - 1);
      SameCredential(dbs, id, i, j - 1);
      UnresolvedStep(dbs[j - 1], dbs[j], id, challenge);
      UnresolvedBlocks(dbs, id, i, j - 1, challenge);
    }
  }

  lemma {:induction false} SameCredential(dbs: seq<Db>, id: Id, i: nat, j: nat)
    requires Run(dbs) && i <= j < |dbs|
    requires forall k :: i <= k <= j ==> id in dbs[k].attempts
    ensures dbs[j].attempts[id].authority == dbs[i].attempts[id].authority
    decreases j - i
  {
    if i < j {
      SameCredential(dbs, id, i, j - 1);
      assert NextAt(dbs, j - 1);
      StepMoves(dbs[j - 1], dbs[j], id);
    }
  }

  lemma UnresolvedStep(db: Db, db': Db, id: Id, challenge: Id)
    requires Next(db, db') && id in db.attempts && db.attempts[id].state !in RESOLVED
    requires challenge in db'.challenges
    requires db'.challenges[challenge].authority.credentialId == db.attempts[id].authority.credentialId
    ensures challenge in db.challenges
    ensures db.challenges[challenge].authority.credentialId == db.attempts[id].authority.credentialId
  {
    var clock, st :| Permitted(db, clock, st) && db' == Effect(db, clock, st);
    BlockedExactly(db, db.attempts[id].authority.credentialId);
    CredentialKept(db, clock, st, challenge);
  }

  // ---------------------------------------------------------------- seven changes

  /** The longest way through the states. */
  function Waypoint(k: nat): AttemptState
    requires k <= 7
  {
    [Authorized, AuthorizePending, RuntimeStaged, CancelPending, RuntimeConsuming,
     RuntimeCommittedUnverified, RuntimeVerified, Reconciled][k]
  }

  /** Attempt `a` at waypoint `k`, one instant after another. */
  function Along(a: Attempt, k: nat): Attempt
    requires k <= 7
  {
    a.(state := Waypoint(k), updatedAt := a.updatedAt + k,
       runtimeVerifiedAt := if k < 6 then a.runtimeVerifiedAt else Some(a.updatedAt + 6),
       attestationCode := if k < 6 then a.attestationCode else Some("VERIFIED"))
  }

  function Way(db: Db, id: Id, k: nat): Db
    requires id in db.attempts && k <= 7
  {
    db.(attempts := db.attempts[id := Along(db.attempts[id], k)])
  }

  lemma WayStep(db: Db, id: Id, k: nat)
    requires id in db.attempts && k < 7
    ensures Next(Way(db, id, k), Way(db, id, k + 1))
  {
    var now, a' := db.attempts[id].updatedAt + k + 1, Along(db.attempts[id], k + 1);
    ChangeExactly(Way(db, id, k), now, id, a');
    assert Way(db, id, k + 1) == Effect(Way(db, id, k), Some(now), UpdateAttempt(id, a', true));
  }

  function Seven(db: Db, id: Id): seq<Db>
    requires id in db.attempts
  {
    seq(8, k requires 0 <= k < 8 => Way(db, id, k))
  }

  /**
   Seven changes of state are possible: from every database with an authorized
   attempt there is a run that makes all of them and ends reconciled.
   */
  lemma SevenChangesReached(db: Db, id: Id)
    requires id in db.attempts && db.attempts[id].state == Authorized
    ensures var dbs := Seven(db, id);
            && dbs[0] == db && Life(dbs, id) && Changes(dbs, id, 7) == 7
            && dbs[7].attempts[id].state == Reconciled
  {
    var dbs := Seven(db, id);
    forall k: nat
      ensures NextAt(dbs, k)
    {
      if k < 7 {
        WayStep(db, id, k);
      }
    }
    CountChanges(db, id, 7);
    assert Along(db.attempts[id], 0) == db.attempts[id];
  }

  lemma {:induction false} CountChanges(db: Db, id: Id, n: nat)
    requires id in db.attempts && n <= 7 && Life(Seven(db, id), id)
    ensures Changes(Seven(db, id), id, n) == n
  {
    if n > 0 {
      CountChanges(db, id, n - 1);
      assert Waypoint(n) != Waypoint(n - 1);
    }
  }

  /** Such a run leads from the empty database over any challenge and any attempt that fits it. */
  lemma SevenChangesFromEmpty(challenge: Id, c: Challenge, id: Id, a: Attempt)
    requires a.challengeId == challenge && a.state == Authorized && a.authority == c.authority && c.state == Issued
    requires a.updatedAt == a.authorizedAt && a.createdAt == a.authorizedAt
    requires c.lastObservedAt <= a.authorizedAt < c.authority.expiresAt
    requires c.cancellationEpoch == c.authority.initialCancellationEpoch
    ensures var issued := Db(map[challenge := c], map[]);
            var authorized := Db(map[challenge := ConsumedBy(c, a)], map[id := a]);
            Run([EMPTY, issued] + Seven(authorized, id))
  {
    var issued := Db(map[challenge := c], map[]);
    var authorized := Db(map[challenge := ConsumedBy(c, a)], map[id := a]);
    assert issued == Effect(EMPTY, None, InsertChallenge(challenge, c));
    AuthorizeExactly(issued, a.authorizedAt, id, a);
    assert authorized == Effect(issued, Some(a.authorizedAt), InsertAttempt(id, a));
    SevenChangesReached(authorized, id);
    var later, dbs := Seven(authorized, id), [EMPTY, issued] + Seven(authorized, id);
    forall k: nat
      ensures NextAt(dbs, k)
    {
      if k >= 2 {
        assert NextAt(later, k - 2);
        assert k + 1 < |dbs| ==> dbs[k] == later[k - 2] && dbs[k + 1] == later[k - 1];
      }
    }
  }
}
