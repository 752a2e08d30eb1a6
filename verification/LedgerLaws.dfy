/**
 What the constraints of the ledger amount to for its rows, and that they leave
 room for chains of every length.
 */
module LedgerLaws {
  import opened Common
  import opened Ledger

  // ------------------------------------------------------------------ single rows

  /** The three-valued predecessor check, without the third value. */
  lemma PredecessorExactly(revision: int, r: Row)
    ensures PredecessorCheck(revision, r) != False <==>
            if revision == 1 then r.previousRevision.None? && r.previousDigest.None?
            else && revision > 1
                 && r.previousRevision in {None, Some(revision - 1)}
                 && (r.previousDigest.Some? ==> |r.previousDigest.value| == 64 && LowerHex(r.previousDigest.value))
  {
  }

  /** What every row of every reachable ledger is like. */
  lemma RowsWellFormed(log: Log, k: Key)
    requires Legal(log) && k in Replay(log)
    ensures var r := Replay(log)[k];
            && k.revision >= 1
            && (r.status in {Current, Superseded} ==> r.digest.Some?)
            && (r.digest.Some? ==>
                  && |r.digest.value| == 64
                  && forall c :: c in r.digest.value ==> '0' <= c <= '9' || 'a' <= c <= 'f')
            && (k.revision == 1 ==> r.previousRevision.None? && r.previousDigest.None?)
            && (r.previousRevision.Some? ==> r.previousRevision.value == k.revision - 1)
  {
    AlwaysSound(log);
    PredecessorExactly(k.revision, Replay(log)[k]);
  }

  /** Two rows of a project are never both open, nor both at the head. */
  lemma OneOpenOneHead(log: Log, k: Key, l: Key)
    requires Legal(log) && k in Replay(log) && l in Replay(log) && k.project == l.project && k != l
    ensures var r, s := Replay(log)[k], Replay(log)[l];
            && !(r.status == Pending && s.status == Pending)
            && !(r.status == Current && s.status == Current)
            && !(r.status == ReconciliationRequired && s.status == ReconciliationRequired
                 && (r.digest.Some? <==> s.digest.Some?))
            && !(r.status == Current && s.status == ReconciliationRequired && s.digest.Some?)
            && !(r.status == Pending && s.status == ReconciliationRequired && s.digest.None?)
  {
    AlwaysSound(log);
  }

  /** The legal transitions, told by where they lead. */
  lemma ArrowsByTarget(s: Status)
    ensures forall f :: Arrow(f, s) <==>
            match s
            case Pending => f == Pending
            case Current => f != Superseded
            case ReconciliationRequired => f != Superseded
            case Superseded => f != Pending
  {
  }

  // ------------------------------------------------------------------ single statements

  /** A new revision can be proposed exactly when it fits its predecessor and none is open. */
  lemma ProposeExactly(rows: Rows, k: Key, r: Row)
    requires Unique(rows) && r.status == Pending && r.digest.None?
    ensures Permitted(rows, Insert(k, r)) <==>
            && k !in rows && PredecessorCheck(k.revision, r) != False
            && PredecessorExists(rows, k.project, r)
            && forall l :: l in rows && l.project == k.project ==> !OpenAttempt(rows[l])
  {
    PredecessorExactly(k.revision, r);
    var rows' := rows[k := r];
    if k !in rows {
      assert k in rows' && OpenAttempt(rows'[k]) && !Head(rows'[k]);
      if Unique(rows') {
        forall l | l in rows && l.project == k.project
          ensures !OpenAttempt(rows[l])
        {
          assert l in rows' && rows'[l] == rows[l];
        }
      }
    }
  }

  /** An open row can be attested as the current one exactly when there is no other head. */
  lemma AttestExactly(rows: Rows, k: Key, digest: string, at: int)
    requires Sound(rows) && k in rows && rows[k].status == Pending && rows[k].digest.None?
    ensures Permitted(rows, Update(k, rows[k].(status := Current, digest := Some(digest), updatedAt := at))) <==>
            && |digest| == 64 && LowerHex(digest)
            && forall l :: l in rows && l.project == k.project ==> !Head(rows[l])
  {
    var r' := rows[k].(status := Current, digest := Some(digest), updatedAt := at);
    var rows' := rows[k := r'];
    assert Checks(k.revision, rows[k]);
    PredecessorExactly(k.revision, rows[k]);
    PredecessorExactly(k.revision, r');
    assert k in rows' && Head(rows'[k]) && !OpenAttempt(rows'[k]);
    if Unique(rows') {
      forall l | l in rows && l.project == k.project
        ensures !Head(rows[l])
      {
        assert l in rows' && (l != k ==> rows'[l] == rows[l]);
      }
    }
  }

  /** The current row can always be superseded. */
  lemma SupersedeAllowed(rows: Rows, k: Key, at: int)
    requires Sound(rows) && k in rows && rows[k].status == Current
    ensures Permitted(rows, Update(k, rows[k].(status := Superseded, updatedAt := at)))
  {
    var r' := rows[k].(status := Superseded, updatedAt := at);
    assert Checks(k.revision, rows[k]);
    PredecessorExactly(k.revision, rows[k]);
    PredecessorExactly(k.revision, r');
  }

  // ------------------------------------------------------------------ chains of every length

  lemma LegalSnoc(log: Log, st: Statement)
    requires Legal(log) && Permitted(Replay(log), st)
    ensures Legal(log + [st]) && Replay(log + [st]) == Effect(Replay(log), st)
  {
    assert (log + [st])[..|log|] == log;
  }

  /** Revisions 1..n of the project, all superseded but the last, which is current. */
  predicate Chain(rows: Rows, project: string, n: nat) {
    && n >= 1
    && (forall k :: k in rows && k.project == project ==> 1 <= k.revision <= n)
    && (forall m :: 1 <= m <= n ==> Key(project, m) in rows)
    && (forall m :: 1 <= m < n ==> rows[Key(project, m)].status == Superseded)
    && rows[Key(project, n)].status == Current && rows[Key(project, n)].digest.Some?
  }

  /** Revision n + 1 is proposed on top of such a chain. */
  predicate Proposed(rows: Rows, project: string, n: nat) {
    && n >= 1
    && (forall k :: k in rows && k.project == project ==> 1 <= k.revision <= n + 1)
    && (forall m :: 1 <= m <= n + 1 ==> Key(project, m) in rows)
    && (forall m :: 1 <= m < n ==> rows[Key(project, m)].status == Superseded)
    && rows[Key(project, n)].status == Current
    && rows[Key(project, n + 1)].status == Pending && rows[Key(project, n + 1)].digest.None?
  }

  lemma Start(project: string, about: Identity, digest: string) returns (log: Log)
    requires |digest| == 64 && LowerHex(digest)
    ensures Reaches(log, project, 1)
  {
    var k, r := Key(project, 1), Row(about, None, None, None, Pending, 0);
    ProposeExactly(map[], k, r);
    LegalSnoc([], Insert(k, r));
    log := [] + [Insert(k, r)];
    AlwaysSound(log);
    AttestExactly(Replay(log), k, digest, 0);
    var st := Update(k, r.(status := Current, digest := Some(digest), updatedAt := 0));
    LegalSnoc(log, st);
    log := log + [st];
  }

  lemma ChainNotOpen(rows: Rows, project: string, n: nat)
    requires Chain(rows, project, n)
    ensures forall l :: l in rows && l.project == project ==> !OpenAttempt(rows[l])
  {
    forall l | l in rows && l.project == project
      ensures !OpenAttempt(rows[l])
    {
      assert l == Key(project, l.revision);
    }
  }

  lemma ChainProposed(rows: Rows, project: string, n: nat, r: Row)
    requires Chain(rows, project, n) && r.status == Pending && r.digest.None?
    ensures Proposed(rows[Key(project, n + 1) := r], project, n)
  {
  }

  lemma Propose(log: Log, project: string, n: nat, about: Identity) returns (log': Log)
    requires Legal(log) && Chain(Replay(log), project, n)
    ensures Legal(log') && Proposed(Replay(log'), project, n) && (InsertsGiven(log) ==> InsertsGiven(log'))
  {
    var rows, before := Replay(log), Key(project, n);
    var k, r := Key(project, n + 1), Row(about, None, Some(n), rows[before].digest, Pending, 0);
    AlwaysSound(log);
    assert Checks(n, rows[before]) && rows[before].digest == r.previousDigest;
    PredecessorExactly(n + 1, r);
    ChainNotOpen(rows, project, n);
    ProposeExactly(rows, k, r);
    ChainProposed(rows, project, n, r);
    LegalSnoc(log, Insert(k, r));
    log' := log + [Insert(k, r)];
    InsertsGivenStep(log, Insert(k, r));
  }

  /** The chain is superseded as a whole and revision n + 1 is still open. */
  predicate Vacant(rows: Rows, project: string, n: nat) {
    && (forall k :: k in rows && k.project == project ==> 1 <= k.revision <= n + 1)
    && (forall m :: 1 <= m <= n + 1 ==> Key(project, m) in rows)
    && (forall m :: 1 <= m <= n ==> rows[Key(project, m)].status == Superseded)
    && rows[Key(project, n + 1)].status == Pending && rows[Key(project, n + 1)].digest.None?
  }

  lemma ProposedVacated(rows: Rows, project: string, n: nat, r: Row)
    requires Proposed(rows, project, n) && r.status == Superseded
    ensures Vacant(rows[Key(project, n) := r], project, n)
  {
  }

  lemma Supersede(log: Log, project: string, n: nat) returns (log': Log)
    requires Legal(log) && Proposed(Replay(log), project, n)
    ensures Legal(log') && Vacant(Replay(log'), project, n) && (InsertsGiven(log) ==> InsertsGiven(log'))
  {
    var k := Key(project, n);
    AlwaysSound(log);
    SupersedeAllowed(Replay(log), k, 0);
    var st := Update(k, Replay(log)[k].(status := Superseded, updatedAt := 0));
    ProposedVacated(Replay(log), project, n, st.row);
    LegalSnoc(log, st);
    InsertsGivenStep(log, st);
    log' := log + [st];
  }

  lemma Attest(log: Log, project: string, n: nat, digest: string) returns (log': Log)
    requires Legal(log) && Vacant(Replay(log), project, n) && |digest| == 64 && LowerHex(digest)
    ensures Legal(log') && Chain(Replay(log'), project, n + 1) && (InsertsGiven(log) ==> InsertsGiven(log'))
  {
    var k := Key(project, n + 1);
    AlwaysSound(log);
    NoHead(Replay(log), project, n);
    AttestExactly(Replay(log), k, digest, 0);
    var st := Update(k, Replay(log)[k].(status := Current, digest := Some(digest), updatedAt := 0));
    LegalSnoc(log, st);
    InsertsGivenStep(log, st);
    log' := log + [st];
  }

  lemma NoHead(rows: Rows, project: string, n: nat)
    requires Vacant(rows, project, n)
    ensures forall k :: k in rows && k.project == project ==> !Head(rows[k])
  {
    forall k | k in rows && k.project == project
      ensures !Head(rows[k])
    {
      assert k == Key(project, k.revision);
    }
  }

  lemma Extend(log: Log, project: string, n: nat, n': nat, about: Identity, digest: string) returns (log': Log)
    requires Reaches(log, project, n) && n' == n + 1 && |digest| == 64 && LowerHex(digest)
    ensures Reaches(log', project, n')
  {
    var proposed := Propose(log, project, n, about);
    var vacant := Supersede(proposed, project, n);
    log' := Attest(vacant, project, n, digest);
  }

  /** A run after which the project has a chain of length n. */
  predicate Reaches(log: Log, project: string, n: nat) {
    Legal(log) && InsertsGiven(log) && Chain(Replay(log), project, n)
  }

  /**
   A project can get a chain of any length; on its way every row goes from
   PENDING through CURRENT to SUPERSEDED.
   */
  lemma ChainOfAnyLength(project: string, n: nat, about: Identity, digest: string) returns (log: Log)
    requires n >= 1 && |digest| == 64 && LowerHex(digest)
    ensures Reaches(log, project, n)
  {
    log := Start(project, about, digest);
    var m := 1;
    while m < n
      invariant 1 <= m <= n && Reaches(log, project, m)
    {
      log := Extend(log, project, m, m + 1, about, digest);
      m := m + 1;
    }
  }

  /** Two rows that are not superseded are possible, whatever the length. */
  lemma TwoNotSuperseded(project: string, n: nat, about: Identity, digest: string) returns (log: Log)
    requires n >= 1 && |digest| == 64 && LowerHex(digest)
    ensures Legal(log) && InsertsGiven(log) && Proposed(Replay(log), project, n)
  {
    var chain := ChainOfAnyLength(project, n, about, digest);
    log := Propose(chain, project, n, about);
  }
}
