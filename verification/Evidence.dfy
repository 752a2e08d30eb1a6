/**
 Compatibility evidence of revision 0004: an evidence set announces the
 dimensions it expects as a bit mask, collects one observation per dimension,
 and is sealed once, when the weights of the observed dimensions sum to the mask.
 */
module Evidence {
  import opened Common

  type Id = string

  datatype Dimension =
    | ProviderEndpoint | Network | Authentication | Model | WireProtocol | ProviderApi
    | CodexRuntime | Remote | Resume | Context | Discovery

  function Weight(d: Dimension): int {
    match d
    case ProviderEndpoint => 1
    case Network => 2
    case Authentication => 4
    case Model => 8
    case WireProtocol => 16
    case ProviderApi => 32
    case CodexRuntime => 64
    case Remote => 128
    case Resume => 256
    case Context => 512
    case Discovery => 1024
  }

  /** `mask & Weight(d) <> 0`. */
  predicate HasBit(mask: int, d: Dimension) {
    mask / Weight(d) % 2 == 1
  }

  predicate RuntimeDimension(d: Dimension) {
    d in {CodexRuntime, Remote, Resume, Context, Discovery}
  }

  datatype Verdict = Pass | Fail | Unsupported | Experimental | Unknown | NotTested

  datatype SetState = Building | Sealed

  datatype ProfileScope = ProfileScope(installation: Id, profile: Id, revision: int)

  datatype CredentialScope = CredentialScope(id: Id, revision: int, secretVersion: int)

  /** The columns of an evidence set that never change; scopes are all-or-nothing by CHECK. */
  datatype Scope = Scope(
    provider: Id, providerRevision: int, profile: Option<ProfileScope>,
    credential: Option<CredentialScope>, schemaVersion: int, mask: int, observedAt: int, expiresAt: int)

  datatype EvidenceSet = EvidenceSet(scope: Scope, state: SetState, sealedAt: Option<int>)

  datatype Observation = Observation(id: Id, evidence: Id, dimension: Dimension, verdict: Verdict)

  /** Observations are kept in the order of their insertion. */
  datatype Db = Db(sets: map<Id, EvidenceSet>, observations: seq<Observation>)

  const EMPTY := Db(map[], [])

  predicate SetChecks(s: EvidenceSet) {
    && 1 <= s.scope.mask <= 2047
    && s.scope.expiresAt > s.scope.observedAt
    && (s.state == Sealed <==> s.sealedAt.Some?)
  }

  /** COALESCE(SUM(weight), 0) over the observations of one set. */
  function Total(os: seq<Observation>, evidence: Id): int {
    if os == [] then 0
    else
      var last := os[|os| - 1];
      Total(os[..|os| - 1], evidence) + if last.evidence == evidence then Weight(last.dimension) else 0
  }

  datatype Statement =
    | InsertSet(id: Id, s: EvidenceSet)
    | UpdateSet(id: Id, s: EvidenceSet)
    | DeleteSet(id: Id)
    | InsertObservation(o: Observation)
    | UpdateObservation(o: Observation)
    | DeleteObservation(id: Id)

  predicate Observable(db: Db, o: Observation) {
    && (forall k :: 0 <= k < |db.observations| ==>
          && db.observations[k].id != o.id
          && (db.observations[k].evidence == o.evidence ==> db.observations[k].dimension != o.dimension))
    && o.evidence in db.sets
    && var s := db.sets[o.evidence];
       && s.state == Building && HasBit(s.scope.mask, o.dimension)
       && (RuntimeDimension(o.dimension) ==> s.scope.profile.Some?)
       && (o.dimension == Authentication && o.verdict in {Pass, Fail} ==> s.scope.credential.Some?)
  }

  predicate Permitted(db: Db, st: Statement) {
    match st
    case InsertSet(id, s) => id !in db.sets && SetChecks(s) && s.state == Building
    case UpdateSet(id, s) =>
      && id in db.sets && SetChecks(s)
      && s.scope == db.sets[id].scope
      && db.sets[id].state == Building && s.state == Sealed
      && db.sets[id].sealedAt.None? && s.sealedAt.Some?
      && Total(db.observations, id) == db.sets[id].scope.mask
    case InsertObservation(o) => Observable(db, o)
    case _ => false
  }

  function Effect(db: Db, st: Statement): Db
    requires Permitted(db, st)
  {
    match st
    case InsertSet(id, s) => db.(sets := db.sets[id := s])
    case UpdateSet(id, s) => db.(sets := db.sets[id := s])
    case InsertObservation(o) => db.(observations := db.observations + [o])
  }

  // ------------------------------------------------------------------ bits and sums

  function Observed(os: seq<Observation>, evidence: Id): set<Dimension> {
    set o | o in os && o.evidence == evidence :: o.dimension
  }

  /** The dimension of bit `i`. */
  function At(i: nat): Dimension
    requires i < 11
  {
    [ProviderEndpoint, Network, Authentication, Model, WireProtocol, ProviderApi,
     CodexRuntime, Remote, Resume, Context, Discovery][i]
  }

  function Index(d: Dimension): (i: nat)
    ensures i < 11 && At(i) == d
  {
    match d
    case ProviderEndpoint => 0
    case Network => 1
    case Authentication => 2
    case Model => 3
    case WireProtocol => 4
    case ProviderApi => 5
    case CodexRuntime => 6
    case Remote => 7
    case Resume => 8
    case Context => 9
    case Discovery => 10
  }

  lemma IndexAt(i: nat)
    requires i < 11
    ensures Index(At(i)) == i
  {
  }

  /** The weights are the powers of two, in the order of the dimensions. */
  lemma WeightOfBit(i: nat)
    requires i < 11
    ensures Weight(At(i)) == [1, 2, 4, 8, 16, 32, 64, 128, 256, 512, 1024][i]
    ensures At(0) == ProviderEndpoint && At(1) == Network && At(2) == Authentication && At(3) == Model
    ensures At(4) == WireProtocol && At(5) == ProviderApi && At(6) == CodexRuntime && At(7) == Remote
    ensures At(8) == Resume && At(9) == Context && At(10) == Discovery
  {
  }

  /** Halving the quotient by one weight gives the quotient by the next. */
  lemma Half(m: int, i: nat)
    requires i < 10
    ensures Weight(At(i + 1)) == 2 * Weight(At(i))
    ensures m / Weight(At(i + 1)) == m / Weight(At(i)) / 2
  {
    match At(i)
    case ProviderEndpoint => assert m / 2 == m / 1 / 2;
    case Network => assert m / 4 == m / 2 / 2;
    case Authentication => assert m / 8 == m / 4 / 2;
    case Model => assert m / 16 == m / 8 / 2;
    case WireProtocol => assert m / 32 == m / 16 / 2;
    case ProviderApi => assert m / 64 == m / 32 / 2;
    case CodexRuntime => assert m / 128 == m / 64 / 2;
    case Remote => assert m / 256 == m / 128 / 2;
    case Resume => assert m / 512 == m / 256 / 2;
    case Context => assert m / 1024 == m / 512 / 2;
  }

  /** The binary number whose digits from bit `i` on say which dimensions are in `ds`. */
  function Digits(ds: set<Dimension>, i: nat): nat
    requires i <= 11
    decreases 11 - i
  {
    if i == 11 then 0 else (if At(i) in ds then 1 else 0) + 2 * Digits(ds, i + 1)
  }

  /** Shifting the number right by `i` bits leaves its digits from bit `i` on. */
  lemma {:induction false} ShiftDigits(ds: set<Dimension>, i: nat)
    requires i < 11
    ensures Digits(ds, 0) / Weight(At(i)) == Digits(ds, i)
  {
    if i > 0 {
      ShiftDigits(ds, i - 1);
      Half(Digits(ds, 0), i - 1);
    }
  }

  lemma {:induction false} AgreeingDigits(ds: set<Dimension>, mask: int, i: nat)
    requires 0 <= mask <= 2047 && i < 11
    requires forall d :: d in ds <==> HasBit(mask, d)
    ensures mask / Weight(At(i)) == Digits(ds, i)
    decreases 11 - i
  {
    assert At(i) in ds <==> HasBit(mask, At(i));
    if i < 10 {
      AgreeingDigits(ds, mask, i + 1);
      Half(mask, i);
    }
  }

  lemma BitsOfDigits(ds: set<Dimension>, d: Dimension)
    ensures d in ds <==> HasBit(Digits(ds, 0), d)
  {
    var i := Index(d);
    ShiftDigits(ds, i);
    LastDigit(ds, i);
  }

  lemma {:induction false} LastDigit(ds: set<Dimension>, i: nat)
    requires i < 11
    ensures Digits(ds, i) % 2 == 1 <==> At(i) in ds
  {
    var rest := Digits(ds, i + 1);
    assert (1 + 2 * rest) % 2 == 1 && (0 + 2 * rest) % 2 == 0;
  }

  /** Distinct powers of two have a unique sum: its bits are the summands. */
  lemma DigitsAreMask(ds: set<Dimension>, mask: int)
    requires 0 <= mask <= 2047
    ensures Digits(ds, 0) == mask <==> forall d :: d in ds <==> HasBit(mask, d)
  {
    if Digits(ds, 0) == mask {
      forall d
        ensures d in ds <==> HasBit(mask, d)
      {
        BitsOfDigits(ds, d);
      }
    } else if forall d :: d in ds <==> HasBit(mask, d) {
      AgreeingDigits(ds, mask, 0);
    }
  }

  /** The weights of the dimensions below bit `i` that are in `ds`. */
  function Low(ds: set<Dimension>, i: nat): int
    requires i <= 11
  {
    if i == 0 then 0 else Low(ds, i - 1) + if At(i - 1) in ds then Weight(At(i - 1)) else 0
  }

  lemma {:induction false} LowAndDigits(ds: set<Dimension>, i: nat)
    requires i < 11
    ensures Low(ds, i) + Weight(At(i)) * Digits(ds, i) == Digits(ds, 0)
  {
    if i > 0 {
      LowAndDigits(ds, i - 1);
      Half(0, i - 1);
      MoveDigit(Low(ds, i - 1), Weight(At(i - 1)), At(i - 1) in ds, Digits(ds, i));
    }
  }

  lemma MoveDigit(low: int, w: int, b: bool, rest: int)
    ensures low + w * ((if b then 1 else 0) + 2 * rest) == low + (if b then w else 0) + 2 * w * rest
  {
    if b {
      assert w * (1 + 2 * rest) == w + 2 * w * rest;
    } else {
      assert w * (0 + 2 * rest) == 2 * w * rest;
    }
  }

  lemma {:induction false} AddLow(ds: set<Dimension>, d: Dimension, i: nat)
    requires d !in ds && i <= 11
    ensures Low(ds + {d}, i) == Low(ds, i) + if Index(d) < i then Weight(d) else 0
  {
    if i > 0 {
      AddLow(ds, d, i - 1);
      IndexAt(i - 1);
    }
  }

  lemma WholeLow(ds: set<Dimension>)
    ensures Low(ds, 11) == Digits(ds, 0)
  {
    LowAndDigits(ds, 10);
    assert Digits(ds, 11) == 0;
  }

  /** A new dimension adds its weight. */
  lemma AddDigit(ds: set<Dimension>, d: Dimension)
    requires d !in ds
    ensures Digits(ds + {d}, 0) == Digits(ds, 0) + Weight(d)
  {
    AddLow(ds, d, 11);
    WholeLow(ds);
    WholeLow(ds + {d});
  }

  predicate DistinctDimensions(os: seq<Observation>) {
    forall j, k :: 0 <= j < k < |os| && os[j].evidence == os[k].evidence ==>
      os[j].dimension != os[k].dimension
  }

  /** The SUM of the sealing trigger is the binary number of the observed dimensions. */
  lemma {:induction false} TotalIsDigits(os: seq<Observation>, evidence: Id)
    requires DistinctDimensions(os)
    ensures Total(os, evidence) == Digits(Observed(os, evidence), 0)
  {
    if os == [] {
      assert Observed(os, evidence) == {};
      NoDigits(0);
    } else {
      var before, last := os[..|os| - 1], os[|os| - 1];
      TotalIsDigits(before, evidence);
      assert os == before + [last];
      if last.evidence == evidence {
        assert Observed(os, evidence) == Observed(before, evidence) + {last.dimension};
        AddDigit(Observed(before, evidence), last.dimension);
      } else {
        assert Observed(os, evidence) == Observed(before, evidence);
      }
    }
  }

  lemma {:induction false} NoDigits(i: nat)
    requires i <= 11
    ensures Digits({}, i) == 0
    decreases 11 - i
  {
    if i < 11 {
      NoDigits(i + 1);
    }
  }

  // ------------------------------------------------------------------ runs

  ghost predicate Next(db: Db, db': Db) {
    exists st :: Permitted(db, st) && db' == Effect(db, st)
  }

  ghost predicate NextAt(dbs: seq<Db>, k: nat) {
    k + 1 < |dbs| ==> Next(dbs[k], dbs[k + 1])
  }

  ghost predicate Run(dbs: seq<Db>) {
    forall k: nat :: NextAt(dbs, k)
  }

  /** The scope that an observation needs is there. */
  predicate Scoped(db: Db, o: Observation) {
    && o.evidence in db.sets
    && HasBit(db.sets[o.evidence].scope.mask, o.dimension)
    && (RuntimeDimension(o.dimension) ==> db.sets[o.evidence].scope.profile.Some?)
    && (o.dimension == Authentication && o.verdict in {Pass, Fail} ==>
          db.sets[o.evidence].scope.credential.Some?)
  }

  predicate DistinctIds(os: seq<Observation>) {
    forall j, k :: 0 <= j < k < |os| ==> os[j].id != os[k].id
  }

  predicate Inv(db: Db) {
    && DistinctDimensions(db.observations) && DistinctIds(db.observations)
    && (forall i :: i in db.sets ==> SetChecks(db.sets[i]))
    && (forall k :: 0 <= k < |db.observations| ==> Scoped(db, db.observations[k]))
    && (forall i :: i in db.sets && db.sets[i].state == Sealed ==>
          Total(db.observations, i) == db.sets[i].scope.mask)
  }

  lemma InsertObservationInv(db: Db, o: Observation)
    requires Inv(db) && Observable(db, o)
    ensures Inv(db.(observations := db.observations + [o]))
  {
    var os := db.observations + [o];
    assert os[..|os| - 1] == db.observations;
  }

  lemma StepInv(db: Db, db': Db)
    requires Inv(db) && Next(db, db')
    ensures Inv(db')
  {
    var st :| Permitted(db, st) && db' == Effect(db, st);
    if st.InsertObservation? {
      InsertObservationInv(db, st.o);
    } else {
      forall k | 0 <= k < |db.observations|
        ensures Scoped(db', db.observations[k])
      {
        assert Scoped(db, db.observations[k]);
      }
    }
  }

  lemma {:induction false} AlwaysInv(dbs: seq<Db>, n: nat)
    requires Run(dbs) && n < |dbs| && dbs[0] == EMPTY
    ensures Inv(dbs[n])
  {
    if n > 0 {
      AlwaysInv(dbs, n - 1);
      assert NextAt(dbs, n - 1);
      StepInv(dbs[n - 1], dbs[n]);
    }
  }

  /**
   In every reachable database the dimensions observed for a sealed set are
   exactly the bits of its mask, each in the scope it needs.
   */
  lemma SealedIsComplete(dbs: seq<Db>, n: nat, id: Id)
    requires Run(dbs) && n < |dbs| && dbs[0] == EMPTY
    requires id in dbs[n].sets && dbs[n].sets[id].state == Sealed
    ensures forall d :: d in Observed(dbs[n].observations, id) <==> HasBit(dbs[n].sets[id].scope.mask, d)
    ensures forall o :: o in dbs[n].observations ==> Scoped(dbs[n], o)
  {
    AlwaysInv(dbs, n);
    TotalIsDigits(dbs[n].observations, id);
    DigitsAreMask(Observed(dbs[n].observations, id), dbs[n].sets[id].scope.mask);
  }

  /** A mask from 64 on has a bit of weight 64 or more. */
  lemma HighBit(mask: int) returns (d: Dimension)
    requires 64 <= mask <= 2047
    ensures Weight(d) >= 64 && HasBit(mask, d)
  {
    if mask >= 1024 {
      d := Discovery;
    } else if mask >= 512 {
      d := Context;
    } else if mask >= 256 {
      d := Resume;
    } else if mask >= 128 {
      d := Remote;
    } else {
      d := CodexRuntime;
    }
  }

  /**
   The scopes, told by the weights of the dimensions: whatever weighs 64 or more
   is about a runtime and has a profile, and a verdict on weight 4, which is
   authentication, has a credential.
   */
  lemma ScopesByWeight(dbs: seq<Db>, n: nat, o: Observation)
    requires Run(dbs) && n < |dbs| && dbs[0] == EMPTY && o in dbs[n].observations
    ensures o.evidence in dbs[n].sets
    ensures var scope := dbs[n].sets[o.evidence].scope;
            && scope.mask / Weight(o.dimension) % 2 == 1
            && (Weight(o.dimension) >= 64 ==> scope.profile.Some?)
            && (Weight(o.dimension) == 4 && o.verdict in {Pass, Fail} ==> scope.credential.Some?)
  {
    AlwaysInv(dbs, n);
  }

  /** A sealed set that expects anything about a runtime has a profile. */
  lemma SealedHasProfile(dbs: seq<Db>, n: nat, id: Id)
    requires Run(dbs) && n < |dbs| && dbs[0] == EMPTY
    requires id in dbs[n].sets && dbs[n].sets[id].state == Sealed
    ensures dbs[n].sets[id].scope.mask >= 64 ==> dbs[n].sets[id].scope.profile.Some?
  {
    AlwaysInv(dbs, n);
    if dbs[n].sets[id].scope.mask >= 64 {
      var d := HighBit(dbs[n].sets[id].scope.mask);
      SealedIsComplete(dbs, n, id);
      assert d in Observed(dbs[n].observations, id);
      var o :| o in dbs[n].observations && o.evidence == id && o.dimension == d;
      ScopesByWeight(dbs, n, o);
    }
  }

  /** What the table constraints keep of every set. */
  lemma SetsWellFormed(dbs: seq<Db>, n: nat, id: Id)
    requires Run(dbs) && n < |dbs| && dbs[0] == EMPTY && id in dbs[n].sets
    ensures var s := dbs[n].sets[id];
            && 1 <= s.scope.mask <= 2047 && s.scope.observedAt < s.scope.expiresAt
            && (s.state == Sealed <==> s.sealedAt.Some?)
  {
    AlwaysInv(dbs, n);
  }

  /** No row is ever removed, no scope changed and no observation rewritten. */
  lemma {:induction false} NothingLost(dbs: seq<Db>, i: nat, j: nat, id: Id)
    requires Run(dbs) && i <= j < |dbs|
    ensures dbs[i].observations <= dbs[j].observations
    ensures id in dbs[i].sets ==> id in dbs[j].sets && dbs[j].sets[id].scope == dbs[i].sets[id].scope
    decreases j - i
  {
    if i < j {
      NothingLost(dbs, i, j - 1, id);
      assert NextAt(dbs, j - 1);
    }
  }

  /** The observations of one set, in order. */
  function Of(os: seq<Observation>, evidence: Id): seq<Observation> {
    if os == [] then []
    else
      var last := os[|os| - 1];
      Of(os[..|os| - 1], evidence) + if last.evidence == evidence then [last] else []
  }

  /** A sealed set and its observations never change again. */
  lemma {:induction false} SealedForever(dbs: seq<Db>, i: nat, j: nat, id: Id)
    requires Run(dbs) && i <= j < |dbs|
    requires id in dbs[i].sets && dbs[i].sets[id].state == Sealed
    ensures id in dbs[j].sets && dbs[j].sets[id] == dbs[i].sets[id]
    ensures Of(dbs[j].observations, id) == Of(dbs[i].observations, id)
    decreases j - i
  {
    if i < j {
      SealedForever(dbs, i, j - 1, id);
      assert NextAt(dbs, j - 1);
      SealedStep(dbs[j - 1], dbs[j], id);
    }
  }

  lemma SealedStep(db: Db, db': Db, id: Id)
    requires Next(db, db') && id in db.sets && db.sets[id].state == Sealed
    ensures id in db'.sets && db'.sets[id] == db.sets[id]
    ensures Of(db'.observations, id) == Of(db.observations, id)
  {
    var st :| Permitted(db, st) && db' == Effect(db, st);
    if st.InsertObservation? {
      assert db'.observations[..|db'.observations| - 1] == db.observations;
    }
  }

  lemma RunSnoc(dbs: seq<Db>, db: Db)
    requires Run(dbs) && dbs != [] && Next(dbs[|dbs| - 1], db)
    ensures Run(dbs + [db])
  {
    forall k: nat
      ensures NextAt(dbs + [db], k)
    {
      assert NextAt(dbs, k);
    }
  }

  /** How one more observation changes the sums and the observed dimensions. */
  lemma OneMore(os: seq<Observation>, o: Observation, evidence: Id)
    ensures var os' := os + [o];
            && Total(os', evidence) == Total(os, evidence) + (if o.evidence == evidence then Weight(o.dimension) else 0)
            && Observed(os', evidence) == Observed(os, evidence) + (if o.evidence == evidence then {o.dimension} else {})
            && Of(os', evidence) == Of(os, evidence) + (if o.evidence == evidence then [o] else [])
  {
    var os' := os + [o];
    assert os'[..|os|] == os;
    assert forall x :: x in os' <==> x in os || x == o;
  }

  /** No observation belongs to a set that is not there. */
  lemma NothingBefore(db: Db, id: Id)
    requires Inv(db) && id !in db.sets
    ensures Observed(db.observations, id) == {} && Total(db.observations, id) == 0
  {
    forall o | o in db.observations
      ensures o.evidence != id
    {
      assert Scoped(db, o);
    }
    TotalIsDigits(db.observations, id);
    NoDigits(0);
  }

  /** A set can be sealed exactly when its observed dimensions are the bits of its mask. */
  lemma Sealable(db: Db, id: Id, s: EvidenceSet)
    requires Inv(db)
    ensures Permitted(db, UpdateSet(id, s)) <==>
            && id in db.sets && db.sets[id].state == Building && s.sealedAt.Some?
            && s == db.sets[id].(state := Sealed, sealedAt := s.sealedAt)
            && forall d :: d in Observed(db.observations, id) <==> HasBit(s.scope.mask, d)
  {
    if id in db.sets && s.scope == db.sets[id].scope {
      TotalIsDigits(db.observations, id);
      DigitsAreMask(Observed(db.observations, id), s.scope.mask);
    }
  }

  lemma ObservableExactly(db: Db, o: Observation)
    ensures Observable(db, o) <==>
            && o.evidence in db.sets && db.sets[o.evidence].state == Building
            && (forall x :: x in db.observations ==> x.id != o.id)
            && o.dimension !in Observed(db.observations, o.evidence)
            && db.sets[o.evidence].scope.mask / Weight(o.dimension) % 2 == 1
            && (Weight(o.dimension) >= 64 ==> db.sets[o.evidence].scope.profile.Some?)
            && (Weight(o.dimension) == 4 && o.verdict in {Pass, Fail}
                ==> db.sets[o.evidence].scope.credential.Some?)
  {
    var os := db.observations;
    assert (forall x :: x in os ==> x.id != o.id) <==> forall k :: 0 <= k < |os| ==> os[k].id != o.id;
    assert o.dimension !in Observed(os, o.evidence) <==>
           forall k :: 0 <= k < |os| && os[k].evidence == o.evidence ==> os[k].dimension != o.dimension;
  }

  /**
   The two tables under their triggers; other constraints are the input
   `admitted`.  `history` are the states so far: a run from the empty database.
   */
  class Tables {
    var sets: map<Id, EvidenceSet>
    var observations: seq<Observation>
    ghost var history: seq<Db>

    constructor ()
      ensures Valid() && Snapshot() == EMPTY && history == [EMPTY]
    {
      sets := map[];
      observations := [];
      history := [EMPTY];
    }

    ghost function Snapshot(): Db
      reads this
    {
      Db(sets, observations)
    }

    ghost predicate Valid()
      reads this
    {
      history != [] && history[0] == EMPTY && Run(history) && history[|history| - 1] == Snapshot()
    }

    /** The state of a valid object is one that the theorems about runs speak of. */
    lemma Reached()
      requires Valid()
      ensures Inv(Snapshot())
    {
      AlwaysInv(history, |history| - 1);
    }

    /** SELECT SUM over the observations of `evidence`. */
    method SumWeights(evidence: Id) returns (total: int)
      ensures total == Total(observations, evidence)
    {
      total := 0;
      for k := 0 to |observations|
        invariant total == Total(observations[..k], evidence)
      {
        assert observations[..k + 1][..k] == observations[..k];
        if observations[k].evidence == evidence {
          total := total + Weight(observations[k].dimension);
        }
      }
      assert observations[..|observations|] == observations;
    }

    /** Seals a set; then its observed dimensions are the bits of its mask. */
    method Seal(id: Id, s: EvidenceSet, admitted: bool) returns (ok: bool)
      requires Valid()
      modifies this
      ensures Valid() && history == if ok then old(history) + [Snapshot()] else old(history)
      ensures ok <==> && admitted && id in old(sets) && old(sets)[id].state == Building && s.sealedAt.Some?
                      && s == old(sets)[id].(state := Sealed, sealedAt := s.sealedAt)
                      && forall d :: d in Observed(observations, id) <==> HasBit(s.scope.mask, d)
      ensures observations == old(observations) && sets == if ok then old(sets)[id := s] else old(sets)
    {
      Reached();
      Sealable(Snapshot(), id, s);
      if !admitted || id !in sets || !SetChecks(s) || s.scope != sets[id].scope {
        return false;
      }
      if sets[id].state != Building || s.state != Sealed || sets[id].sealedAt.Some? || s.sealedAt.None? {
        return false;
      }
      var total := SumWeights(id);
      if total != sets[id].scope.mask {
        return false;
      }
      sets := sets[id := s];
      Record(UpdateSet(id, s));
      return true;
    }

    /** Adds an observation; the sum of its set grows by its weight and no other set is affected. */
    method Observe(o: Observation, admitted: bool) returns (ok: bool)
      requires Valid()
      modifies this
      ensures Valid() && history == if ok then old(history) + [Snapshot()] else old(history)
      ensures ok <==> && admitted && o.evidence in sets && sets[o.evidence].state == Building
                      && (forall x :: x in old(observations) ==> x.id != o.id)
                      && o.dimension !in Observed(old(observations), o.evidence)
                      && sets[o.evidence].scope.mask / Weight(o.dimension) % 2 == 1
                      && (Weight(o.dimension) >= 64 ==> sets[o.evidence].scope.profile.Some?)
                      && (Weight(o.dimension) == 4 && o.verdict in {Pass, Fail}
                          ==> sets[o.evidence].scope.credential.Some?)
      ensures sets == old(sets) && observations == if ok then old(observations) + [o] else old(observations)
      ensures ok ==> Total(observations, o.evidence) == Total(old(observations), o.evidence) + Weight(o.dimension)
      ensures ok ==> Observed(observations, o.evidence) == Observed(old(observations), o.evidence) + {o.dimension}
      ensures ok ==> forall e :: e != o.evidence ==> Of(observations, e) == Of(old(observations), e)
      ensures ok ==> forall x :: x in observations ==> Scoped(Snapshot(), x)
    {
      ObservableExactly(Snapshot(), o);
      if !admitted || !Observable(Db(sets, observations), o) {
        return false;
      }
      observations := observations + [o];
      Record(InsertObservation(o));
      Reached();
      OneMore(old(observations), o, o.evidence);
      forall e | e != o.evidence
        ensures Of(observations, e) == Of(old(observations), e)
      {
        OneMore(old(observations), o, e);
      }
      return true;
    }

    /** Adds an evidence set; nothing has been observed for it, so it cannot be sealed yet. */
    method Open(id: Id, s: EvidenceSet, admitted: bool) returns (ok: bool)
      requires Valid()
      modifies this
      ensures Valid() && history == if ok then old(history) + [Snapshot()] else old(history)
      ensures ok <==> && admitted && id !in old(sets) && s.state == Building && s.sealedAt.None?
                      && 1 <= s.scope.mask <= 2047 && s.scope.observedAt < s.scope.expiresAt
      ensures observations == old(observations) && sets == if ok then old(sets)[id := s] else old(sets)
      ensures ok ==> Observed(observations, id) == {} && Total(observations, id) == 0
      ensures ok ==> forall later :: !Permitted(Snapshot(), UpdateSet(id, later))
    {
      if !admitted || id in sets || !SetChecks(s) || s.state != Building {
        return false;
      }
      Reached();
      NothingBefore(Snapshot(), id);
      sets := sets[id := s];
      Record(InsertSet(id, s));
      return true;
    }

    /** Notes the state that statement `st` has led to. */
    ghost method Record(st: Statement)
      requires history != [] && history[0] == EMPTY && Run(history)
      requires Permitted(history[|history| - 1], st) && Snapshot() == Effect(history[|history| - 1], st)
      modifies this`history
      ensures Valid() && history == old(history) + [Snapshot()]
    {
      RunSnoc(history, Snapshot());
      history := history + [Snapshot()];
    }
  }
}
