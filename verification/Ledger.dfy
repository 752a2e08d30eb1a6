/**
 The project binding ledger of revision 0009: a table whose rows of one project
 are meant to form a chain of attested revisions.  CHECK constraints follow
 SQL's three-valued logic, in which an unknown check accepts the row.
 */
module Ledger {
  import opened Common
  import opened Sets

  datatype Truth = True | False | Unknown {
    function And(other: Truth): Truth {
      if this == False || other == False then False
      else if this == Unknown || other == Unknown then Unknown else True
    }

    function Or(other: Truth): Truth {
      if this == True || other == True then True
      else if this == Unknown || other == Unknown then Unknown else False
    }
  }

  function Known(b: bool): Truth {
    if b then True else False
  }

  datatype Status = Pending | Current | ReconciliationRequired | Superseded

  /** The columns that describe the binding and never change. */
  datatype Identity = Identity(
    relativeKey: string, projectRevision: int, hostId: string, hostRevision: int, createdAt: int)

  datatype Row = Row(
    identity: Identity, digest: Option<string>, previousRevision: Option<int>,
    previousDigest: Option<string>, status: Status, updatedAt: int)

  /** Project and binding revision: the primary key. */
  datatype Key = Key(project: string, revision: int)

  type Rows = map<Key, Row>

  predicate Digest64(s: string) {
    |s| == 64 && LowerHex(s)
  }

  /** ck_waw_project_bindings_predecessor. */
  function PredecessorCheck(revision: int, r: Row): Truth {
    var first :=
      Known(revision == 1).And(Known(r.previousRevision.None?)).And(Known(r.previousDigest.None?));
    var later :=
      Known(revision > 1)
        .And(if r.previousRevision.None? then Unknown else Known(r.previousRevision.value == revision - 1))
        .And(if r.previousDigest.None? then Unknown else Known(|r.previousDigest.value| == 64))
        .And(if r.previousDigest.None? then Unknown else Known(LowerHex(r.previousDigest.value)));
    first.Or(later)
  }

  predicate Checks(revision: int, r: Row) {
    && revision >= 1
    && (r.digest.Some? ==> Digest64(r.digest.value))
    && PredecessorCheck(revision, r) != False
    && (r.status in {Current, Superseded} ==> r.digest.Some?)
  }

  /** The predecessor foreign key, which SQLite does not enforce when a column is NULL. */
  predicate PredecessorExists(rows: Rows, project: string, r: Row) {
    r.previousRevision.Some? && r.previousDigest.Some? ==>
      var k := Key(project, r.previousRevision.value);
      k in rows && rows[k].digest == r.previousDigest
  }

  /** Membership in the two partial unique indexes. */
  predicate OpenAttempt(r: Row) {
    r.status == Pending || (r.status == ReconciliationRequired && r.digest.None?)
  }

  predicate Head(r: Row) {
    r.status == Current || (r.status == ReconciliationRequired && r.digest.Some?)
  }

  predicate Unique(rows: Rows) {
    && (forall k, l :: k in rows && l in rows && k.project == l.project ==>
          OpenAttempt(rows[k]) && OpenAttempt(rows[l]) ==> k == l)
    && (forall k, l :: k in rows && l in rows && k.project == l.project ==>
          Head(rows[k]) && Head(rows[l]) ==> k == l)
  }

  predicate Arrow(s: Status, s': Status) {
    match s
    case Pending => s' in {Pending, Current, ReconciliationRequired}
    case Current => s' in {Current, ReconciliationRequired, Superseded}
    case ReconciliationRequired => s' in {ReconciliationRequired, Current, Superseded}
    case Superseded => s' == Superseded
  }

  /** The immutable_identity and legal_transition triggers. */
  predicate Updatable(r: Row, r': Row) {
    && r'.identity == r.identity && r'.previousRevision == r.previousRevision
    && r'.previousDigest == r.previousDigest && (r.digest.Some? ==> r'.digest == r.digest)
    && Arrow(r.status, r'.status)
  }

  datatype Statement = Insert(key: Key, row: Row) | Update(key: Key, row: Row) | Delete(key: Key)

  predicate Permitted(rows: Rows, st: Statement) {
    match st
    case Insert(k, r) =>
      && k !in rows && Checks(k.revision, r) && PredecessorExists(rows, k.project, r)
      && Unique(rows[k := r])
    case Update(k, r) =>
      k in rows && Updatable(rows[k], r) && Checks(k.revision, r) && Unique(rows[k := r])
    case Delete(k) => false
  }

  function Effect(rows: Rows, st: Statement): Rows
    requires Permitted(rows, st)
  {
    rows[st.key := st.row]
  }

  type Log = seq<Statement>

  predicate Legal(log: Log)
    decreases |log|, 0
  {
    log != [] ==> Legal(log[..|log| - 1]) && Permitted(Replay(log[..|log| - 1]), log[|log| - 1])
  }

  function Replay(log: Log): Rows
    requires Legal(log)
    decreases |log|, 1
  {
    if log == [] then map[] else Effect(Replay(log[..|log| - 1]), log[|log| - 1])
  }

  /** Both predecessor columns are given wherever the revision has a predecessor. */
  predicate Given(k: Key, r: Row) {
    k.revision > 1 ==> r.previousRevision.Some? && r.previousDigest.Some?
  }

  /** Each row after the first names the digest of the row before it. */
  predicate Linked(rows: Rows, k: Key)
    requires k in rows
  {
    k.revision > 1 ==>
      var before := Key(k.project, k.revision - 1);
      && rows[k].previousRevision == Some(k.revision - 1)
      && before in rows && rows[before].digest.Some? && rows[k].previousDigest == rows[before].digest
  }

  predicate Chained(rows: Rows) {
    forall k :: k in rows ==> k.revision >= 1 && Linked(rows, k)
  }

  /** What holds whether or not predecessors are given. */
  predicate Sound(rows: Rows) {
    && Unique(rows)
    && (forall k :: k in rows ==> Checks(k.revision, rows[k]) && PredecessorExists(rows, k.project, rows[k]))
  }

  lemma StepSound(rows: Rows, st: Statement)
    requires Sound(rows) && Permitted(rows, st)
    ensures Sound(Effect(rows, st))
  {
    var rows' := Effect(rows, st);
    forall k | k in rows'
      ensures Checks(k.revision, rows'[k]) && PredecessorExists(rows', k.project, rows'[k])
    {
      var r := if k in rows then rows[k] else rows'[k];
      PredecessorStays(rows, st, k.project, r);
    }
  }

  /** A digest once given stays, so a predecessor that exists goes on existing. */
  lemma PredecessorStays(rows: Rows, st: Statement, project: string, r: Row)
    requires Permitted(rows, st) && PredecessorExists(rows, project, r)
    ensures PredecessorExists(Effect(rows, st), project, r)
  {
  }

  lemma {:induction false} AlwaysSound(log: Log)
    requires Legal(log)
    ensures Sound(Replay(log))
  {
    if log != [] {
      AlwaysSound(log[..|log| - 1]);
      StepSound(Replay(log[..|log| - 1]), log[|log| - 1]);
    }
  }

  predicate AllGiven(rows: Rows) {
    forall k :: k in rows ==> Given(k, rows[k])
  }

  predicate InsertsGiven(log: Log) {
    forall i :: 0 <= i < |log| && log[i].Insert? ==> Given(log[i].key, log[i].row)
  }

  lemma GivenStep(rows: Rows, st: Statement)
    requires Permitted(rows, st)
    ensures AllGiven(Effect(rows, st)) <==> AllGiven(rows) && (st.Insert? ==> Given(st.key, st.row))
  {
    var rows' := Effect(rows, st);
    if AllGiven(rows') {
      forall k | k in rows
        ensures Given(k, rows[k])
      {
        assert k in rows' && Given(k, rows'[k]);
      }
      assert st.key in rows' && Given(st.key, rows'[st.key]);
    }
  }

  lemma InsertsGivenStep(log: Log, st: Statement)
    ensures InsertsGiven(log + [st]) <==> InsertsGiven(log) && (st.Insert? ==> Given(st.key, st.row))
  {
    var log' := log + [st];
    assert forall i :: 0 <= i < |log| ==> log'[i] == log[i];
    assert log'[|log|] == st;
  }

  /** Every row of the table was inserted, with the predecessor columns it still has. */
  lemma {:induction false} GivenByInserts(log: Log)
    requires Legal(log)
    ensures AllGiven(Replay(log)) <==> InsertsGiven(log)
  {
    if log != [] {
      var before, last := log[..|log| - 1], log[|log| - 1];
      GivenByInserts(before);
      GivenStep(Replay(before), last);
      InsertsGivenStep(before, last);
      assert before + [last] == log;
    }
  }

  lemma GivenIsLinked(rows: Rows, k: Key)
    requires Sound(rows) && k in rows
    ensures k.revision >= 1 && (Linked(rows, k) <==> Given(k, rows[k]))
  {
    assert Checks(k.revision, rows[k]) && PredecessorExists(rows, k.project, rows[k]);
  }

  lemma ChainedIsGiven(rows: Rows)
    requires Sound(rows)
    ensures Chained(rows) <==> AllGiven(rows)
  {
    forall k | k in rows
      ensures k.revision >= 1 && (Linked(rows, k) <==> Given(k, rows[k]))
    {
      GivenIsLinked(rows, k);
    }
  }

  /**
   The rows of every project form a chain exactly when every accepted insert
   supplied both predecessor columns beyond revision one.
   */
  lemma ChainExactly(log: Log)
    requires Legal(log)
    ensures Chained(Replay(log)) <==> InsertsGiven(log)
  {
    AlwaysSound(log);
    GivenByInserts(log);
    ChainedIsGiven(Replay(log));
  }

  /** A first row with revision five and no predecessor is accepted: the check is unknown, not false. */
  lemma NullPredecessorAccepted()
    ensures var k := Key("p", 5);
            var r := Row(Identity("app", 1, "h", 1, 0), None, None, None, Pending, 0);
            Permitted(map[], Insert(k, r)) && !Chained(Effect(map[], Insert(k, r)))
  {
    var k := Key("p", 5);
    var r := Row(Identity("app", 1, "h", 1, 0), None, None, None, Pending, 0);
    assert PredecessorCheck(5, r) == Unknown;
    var rows: Rows := Effect(map[], Insert(k, r));
    assert k in rows && !Linked(rows, k);
  }

  // ------------------------------------------------------------------ a project's rows

  function Revisions(rows: Rows, project: string): set<int> {
    set k | k in rows && k.project == project :: k.revision
  }

  /** The revisions 1..n. */
  function Interval(n: nat): (s: set<int>)
    ensures |s| == n
    ensures forall x :: x in s <==> 1 <= x <= n
  {
    if n == 0 then {} else Interval(n - 1) + {n}
  }

  lemma {:induction false} Downward(s: set<int>, m: int, x: int)
    requires forall y :: y in s && y > 1 ==> y - 1 in s
    requires m in s && 1 <= x <= m
    ensures x in s
    decreases m - x
  {
    if x < m {
      Downward(s, m, x + 1);
      assert x + 1 - 1 in s;
    }
  }

  /** The revisions of a chained project are exactly 1..n. */
  lemma RevisionsContiguous(rows: Rows, project: string)
    requires Chained(rows)
    ensures Revisions(rows, project) == Interval(|Revisions(rows, project)|)
  {
    var s := Revisions(rows, project);
    if s == {} {
    } else {
      forall y | y in s
        ensures y >= 1 && (y > 1 ==> y - 1 in s)
      {
        var k :| k in rows && k.project == project && k.revision == y;
        assert Linked(rows, k);
        assert y > 1 ==> Key(project, y - 1) in rows;
      }
      var m := Largest(s);
      forall x | 1 <= x <= m
        ensures x in s
      {
        Downward(s, m, x);
      }
      assert s == Interval(m);
    }
  }

  lemma RevisionKey(rows: Rows, project: string, revision: int)
    ensures revision in Revisions(rows, project) <==> Key(project, revision) in rows
  {
  }

  lemma AttestedBefore(rows: Rows, project: string, revision: int)
    requires Key(project, revision + 1) in rows && Linked(rows, Key(project, revision + 1)) && revision >= 1
    ensures Key(project, revision) in rows && rows[Key(project, revision)].digest.Some?
  {
  }

  /** Every row of a chained project but the last one is attested. */
  lemma AttestedBelowHead(rows: Rows, project: string, revision: int)
    requires Chained(rows)
    requires 1 <= revision < |Revisions(rows, project)|
    ensures Key(project, revision) in rows && rows[Key(project, revision)].digest.Some?
  {
    RevisionsContiguous(rows, project);
    RevisionKey(rows, project, revision + 1);
    AttestedBefore(rows, project, revision);
  }

  function WithStatus(rows: Rows, project: string, status: Status): set<int> {
    set k | k in rows && k.project == project && rows[k].status == status :: k.revision
  }

  function OpenRevisions(rows: Rows, project: string): set<int> {
    set k | k in rows && k.project == project && OpenAttempt(rows[k]) :: k.revision
  }

  function HeadRevisions(rows: Rows, project: string): set<int> {
    set k | k in rows && k.project == project && Head(rows[k]) :: k.revision
  }

  lemma AtMostOneEach(rows: Rows, project: string)
    requires Unique(rows)
    ensures |OpenRevisions(rows, project)| <= 1 && |HeadRevisions(rows, project)| <= 1
  {
    SubSingleton(OpenRevisions(rows, project));
    SubSingleton(HeadRevisions(rows, project));
  }

  /** At most two rows of a project are not superseded: one open attempt and one head. */
  lemma SupersededCount(rows: Rows, project: string)
    requires Sound(rows)
    ensures |WithStatus(rows, project, Superseded)| >= |Revisions(rows, project)| - 2
  {
    var all, done := Revisions(rows, project), WithStatus(rows, project, Superseded);
    var open, head := OpenRevisions(rows, project), HeadRevisions(rows, project);
    forall x | x in all
      ensures x in done + open + head
    {
      var k :| k in rows && k.project == project && k.revision == x;
      assert rows[k].status == Superseded || OpenAttempt(rows[k]) || Head(rows[k]);
    }
    SubsetSize(all, done + open + head);
    AtMostOneEach(rows, project);
  }

  /** What no statement ever changes about a row. */
  predicate Frozen(r: Row, r': Row) {
    && r'.identity == r.identity && r'.previousRevision == r.previousRevision
    && r'.previousDigest == r.previousDigest && (r.digest.Some? ==> r'.digest == r.digest)
    && (r.status == Superseded ==> r'.status == Superseded)
  }

  /** No row is ever lost, re-linked, re-attested or revived. */
  lemma {:induction false} HistoryKept(log: Log, n: nat, k: Key)
    requires Legal(log) && n <= |log| && Legal(log[..n]) && k in Replay(log[..n])
    ensures k in Replay(log) && Frozen(Replay(log[..n])[k], Replay(log)[k])
  {
    if n == |log| {
      assert log[..n] == log;
    } else {
      assert log[..|log| - 1][..n] == log[..n];
      HistoryKept(log[..|log| - 1], n, k);
    }
  }

  class Table {
    var rows: Rows
    ghost var log: Log

    ghost predicate Valid()
      reads this
    {
      Legal(log) && rows == Replay(log)
    }

    constructor ()
      ensures Valid() && rows == map[]
    {
      rows := map[];
      log := [];
    }

    /** Writes the row, then checks the unique indexes and rolls back on a violation. */
    method Write(st: Statement) returns (ok: bool)
      requires Valid()
      modifies this
      ensures Valid()
      ensures ok <==> Permitted(old(rows), st)
      ensures rows == if ok then Effect(old(rows), st) else old(rows)
      ensures log == if ok then old(log) + [st] else old(log)
    {
      if st.Delete? {
        return false;
      }
      var k, r := st.key, st.row;
      ok := Checks(k.revision, r)
        && if st.Insert? then k !in rows && PredecessorExists(rows, k.project, r)
           else k in rows && Updatable(rows[k], r);
      if !ok {
        return;
      }
      var savepoint := rows;
      rows := rows[k := r];
      if !Unique(rows) {
        rows := savepoint;
        return false;
      }
      log := log + [st];
      assert log[..|log| - 1] == old(log);
    }
  }
}
