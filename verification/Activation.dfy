/**
 The activation transaction: a journal, one systemd drop-in and two profile
 files change in a fixed order, and every change may be the last before a crash.

 Files are replaced through a temporary whose name is derived from the target
 and the bytes to be published; the drop-in is written in place.  As in the
 enrollment model the file system calls form a transition system, and
 `Transaction` is the program that extends its log.
 */
module Activation {
  import opened Common

  function ProfileText(mode: string, schema: string): string {
    "{\"mode\":\"" + mode + "\",\"schema_version\":\"" + schema + "\"}\n"
  }

  const API_DISABLED := ProfileText("disabled", "agentbox-waw-api-profile.v1")
  const API_ENABLED := ProfileText("filesystem-v2", "agentbox-waw-api-profile.v1")
  const RUNTIME_DISABLED := ProfileText("disabled", "agentbox-waw-runtime-profile.v1")
  const RUNTIME_ENABLED := ProfileText("filesystem-v2", "agentbox-waw-runtime-profile.v1")

  datatype Phase = Preparing | Configured | Started

  function Word(phase: Phase): string {
    match phase
    case Preparing => "preparing"
    case Configured => "configured"
    case Started => "started"
  }

  datatype Name = Journal | Dropin | RuntimeProfile | ApiProfile | Temp(target: Name, raw: string)

  /**
   `settled`: owner, group and mode are those the writer asks for.
   */
  datatype File = File(content: string, settled: bool)

  /** `dropDir` is the drop-in directory: absent, or present with the demanded mode or without. */
  datatype Disk = Disk(files: map<Name, File>, dropDir: Option<bool>) {
    /** The disk with other bytes in file `n`. */
    function WithContent(n: Name, content: string): Disk
      requires n in files
    {
      this.(files := files[n := files[n].(content := content)])
    }
  }

  /**
   The journal text around the phase, the drop-in text, and the names whose
   files already have the demanded group and mode when they are created.
   */
  datatype Config = Config(head: string, tail: string, conf: string, bornSettled: set<Name>) {
    function JournalText(phase: Phase): string {
      head + Word(phase) + tail
    }

    function Wanted(n: Name): string {
      match n
      case Temp(_, raw) => raw
      case _ => conf
    }

    predicate Has(d: Disk, n: Name, text: string) {
      n in d.files && d.files[n] == File(text, true)
    }

    predicate InPhase(d: Disk, phase: Phase) {
      Has(d, Journal, JournalText(phase))
    }

    predicate BothEnabled(d: Disk) {
      && Has(d, Dropin, conf) && Has(d, RuntimeProfile, RUNTIME_ENABLED)
      && Has(d, ApiProfile, API_ENABLED)
    }

    /** The state the transaction asks for before it publishes `raw` as `target`. */
    predicate MayPublish(d: Disk, target: Name, raw: string) {
      match target
      case Journal =>
        || raw == JournalText(Preparing)
        || (raw == JournalText(Configured) && BothEnabled(d))
        || (raw == JournalText(Started) && BothEnabled(d) && InPhase(d, Configured))
      case RuntimeProfile => raw == RUNTIME_ENABLED && InPhase(d, Preparing) && Has(d, Dropin, conf)
      case ApiProfile =>
        && raw == API_ENABLED && InPhase(d, Preparing) && Has(d, Dropin, conf)
        && Has(d, RuntimeProfile, RUNTIME_ENABLED)
      case _ => false
    }
  }

  datatype Change =
    | MakeDir(settled: bool)
    | SettleDir
    | Create(n: Name)
    | Settle(n: Name)
    | Append(n: Name, piece: string)
    | Loosen(n: Name)
    | Publish(target: Name, raw: string)

  predicate Enabled(c: Config, d: Disk, op: Change) {
    match op
    case MakeDir(_) => d.dropDir.None?
    case SettleDir => d.dropDir.Some?
    case Create(n) => Creatable(c, d, n) && n !in d.files
    case Settle(n) => (n.Dropin? || n.Temp?) && n in d.files
    case Append(n, piece) =>
      Creatable(c, d, n) && n in d.files && d.files[n].content + piece <= c.Wanted(n)
    case Loosen(n) => Creatable(c, d, n) && n in d.files && d.files[n].content != c.Wanted(n)
    case Publish(target, raw) =>
      c.Has(d, Temp(target, raw), raw) && c.MayPublish(d, target, raw)
  }

  /** Only the drop-in, after the intent is journalled, and temporaries are written in place. */
  predicate Creatable(c: Config, d: Disk, n: Name) {
    n.Temp? || (n.Dropin? && c.InPhase(d, Preparing) && d.dropDir == Some(true))
  }

  /** Mode 0600, to which a repair loosens a file, is the demanded mode of journals. */
  predicate LoosenKeeps(n: Name) {
    n.Temp? && n.target.Journal?
  }

  function Apply(c: Config, d: Disk, op: Change): Disk
    requires Enabled(c, d, op)
  {
    match op
    case MakeDir(settled) => d.(dropDir := Some(settled))
    case SettleDir => d.(dropDir := Some(true))
    case Create(n) => d.(files := d.files[n := File("", n in c.bornSettled)])
    case Settle(n) => d.(files := d.files[n := d.files[n].(settled := true)])
    case Append(n, piece) =>
      d.(files := d.files[n := d.files[n].(content := d.files[n].content + piece)])
    case Loosen(n) => d.(files := d.files[n := d.files[n].(settled := LoosenKeeps(n))])
    case Publish(target, raw) =>
      d.(files := (d.files - {Temp(target, raw)})[target := File(raw, true)])
  }

  type Log = seq<Change>

  predicate Installed(c: Config, d: Disk) {
    && d.files == map[RuntimeProfile := File(RUNTIME_DISABLED, true), ApiProfile := File(API_DISABLED, true)]
    && d.dropDir in {None, Some(true)}
    && c.conf != ""
  }

  predicate Legal(c: Config, d0: Disk, log: Log)
    decreases |log|, 0
  {
    if log == [] then Installed(c, d0)
    else Legal(c, d0, log[..|log| - 1]) && Enabled(c, Replay(c, d0, log[..|log| - 1]), log[|log| - 1])
  }

  function Replay(c: Config, d0: Disk, log: Log): Disk
    requires Legal(c, d0, log)
    decreases |log|, 1
  {
    if log == [] then d0 else Apply(c, Replay(c, d0, log[..|log| - 1]), log[|log| - 1])
  }

  /** API enabled implies Runtime enabled implies drop-in complete implies a journal exists. */
  predicate Paired(c: Config, d: Disk) {
    && (c.Has(d, ApiProfile, API_ENABLED) || c.Has(d, ApiProfile, API_DISABLED))
    && (c.Has(d, RuntimeProfile, RUNTIME_ENABLED) || c.Has(d, RuntimeProfile, RUNTIME_DISABLED))
    && (Journal in d.files ==> exists p :: c.InPhase(d, p))
    && (c.Has(d, ApiProfile, API_ENABLED) ==> c.Has(d, RuntimeProfile, RUNTIME_ENABLED))
    && (c.Has(d, RuntimeProfile, RUNTIME_ENABLED) ==> c.Has(d, Dropin, c.conf))
    && (Dropin in d.files ==> Journal in d.files && d.dropDir == Some(true))
    && (c.InPhase(d, Configured) || c.InPhase(d, Started) ==> c.BothEnabled(d))
    && (forall n :: n in d.files && (n.Dropin? || n.Temp?) ==> d.files[n].content <= c.Wanted(n))
    && c.conf != ""
  }

  lemma PhasesDiffer(c: Config)
    ensures c.JournalText(Preparing) != c.JournalText(Configured)
    ensures c.JournalText(Preparing) != c.JournalText(Started)
    ensures c.JournalText(Configured) != c.JournalText(Started)
  {
    assert |c.JournalText(Preparing)| == |c.head| + 9 + |c.tail|;
    assert |c.JournalText(Configured)| == |c.head| + 10 + |c.tail|;
    assert |c.JournalText(Started)| == |c.head| + 7 + |c.tail|;
  }

  lemma ProfilesDiffer()
    ensures API_DISABLED != API_ENABLED && RUNTIME_DISABLED != RUNTIME_ENABLED
  {
    assert |"disabled"| == 8 && |"filesystem-v2"| == 13;
  }

  lemma StepPaired(c: Config, d: Disk, op: Change)
    requires Paired(c, d) && Enabled(c, d, op)
    ensures Paired(c, Apply(c, d, op))
  {
    match op
    case MakeDir(_) => SameFiles(c, d, Apply(c, d, op));
    case SettleDir => SameFiles(c, d, Apply(c, d, op));
    case Publish(target, raw) =>
      if target.Journal? { JournalPaired(c, d, raw); } else { ProfilePaired(c, d, target, raw); }
    case Create(n) => WritePaired(c, d, n, Apply(c, d, op).files[n]);
    case Settle(n) => WritePaired(c, d, n, Apply(c, d, op).files[n]);
    case Append(n, _) => WritePaired(c, d, n, Apply(c, d, op).files[n]);
    case Loosen(n) => WritePaired(c, d, n, Apply(c, d, op).files[n]);
  }

  lemma SameFiles(c: Config, d: Disk, d': Disk)
    requires Paired(c, d) && d.files == d'.files
    requires d.dropDir == Some(true) ==> d'.dropDir == d.dropDir
    ensures Paired(c, d')
  {
    if Journal in d.files {
      var p :| c.InPhase(d, p);
      assert c.InPhase(d', p);
    }
  }

  /** Writing a temporary, or a drop-in that is not complete yet, keeps the files paired. */
  lemma WritePaired(c: Config, d: Disk, n: Name, f: File)
    requires Paired(c, d) && f.content <= c.Wanted(n)
    requires n.Temp? || (n.Dropin? && Journal in d.files && d.dropDir == Some(true) && (c.Has(d, Dropin, c.conf) ==> f == d.files[n]))
    ensures Paired(c, d.(files := d.files[n := f]))
  {
    var d' := d.(files := d.files[n := f]);
    if Journal in d.files {
      var p :| c.InPhase(d, p);
      assert c.InPhase(d', p);
    }
  }

  /** What a publication leaves alone. */
  lemma PublishedFrame(c: Config, d: Disk, target: Name, raw: string)
    requires Enabled(c, d, Publish(target, raw))
    ensures var d' := Apply(c, d, Publish(target, raw));
            && d'.dropDir == d.dropDir && c.Has(d', target, raw) && !target.Temp?
            && forall n: Name, text :: n != target && !n.Temp? ==> (c.Has(d', n, text) <==> c.Has(d, n, text))
    ensures var d' := Apply(c, d, Publish(target, raw));
            && (forall n: Name :: n in d'.files && n != target ==> n in d.files && d'.files[n] == d.files[n])
            && (forall n: Name :: n in d.files && !n.Temp? ==> n in d'.files)
  {
  }

  lemma PhasePaired(c: Config, d: Disk, phase: Phase)
    requires Paired(c, d) && Enabled(c, d, Publish(Journal, c.JournalText(phase)))
    requires phase != Preparing ==> c.BothEnabled(d)
    ensures Paired(c, Apply(c, d, Publish(Journal, c.JournalText(phase))))
  {
    var d' := Apply(c, d, Publish(Journal, c.JournalText(phase)));
    PublishedFrame(c, d, Journal, c.JournalText(phase));
    assert c.InPhase(d', phase);
    assert phase == Preparing ==> !c.InPhase(d', Configured) && !c.InPhase(d', Started) by {
      PhasesDiffer(c);
    }
  }

  lemma JournalPaired(c: Config, d: Disk, raw: string)
    requires Paired(c, d) && Enabled(c, d, Publish(Journal, raw))
    ensures Paired(c, Apply(c, d, Publish(Journal, raw)))
  {
    if raw == c.JournalText(Preparing) {
      PhasePaired(c, d, Preparing);
    } else if raw == c.JournalText(Configured) {
      PhasePaired(c, d, Configured);
    } else {
      PhasePaired(c, d, Started);
    }
  }

  lemma ProfilePaired(c: Config, d: Disk, target: Name, raw: string)
    requires Paired(c, d) && Enabled(c, d, Publish(target, raw)) && !target.Journal?
    ensures Paired(c, Apply(c, d, Publish(target, raw)))
  {
    var d' := Apply(c, d, Publish(target, raw));
    PublishedFrame(c, d, target, raw);
    assert c.InPhase(d', Preparing);
    assert !c.InPhase(d', Configured) && !c.InPhase(d', Started) by {
      PhasesDiffer(c);
    }
    ProfilesDiffer();
  }

  lemma {:induction false} AlwaysPaired(c: Config, d0: Disk, log: Log)
    requires Legal(c, d0, log)
    ensures Paired(c, Replay(c, d0, log))
  {
    if log == [] {
      ProfilesDiffer();
    } else {
      AlwaysPaired(c, d0, log[..|log| - 1]);
      StepPaired(c, Replay(c, d0, log[..|log| - 1]), log[|log| - 1]);
    }
  }

  function PhaseOf(c: Config, d: Disk): Option<Phase> {
    if Journal !in d.files then None
    else if c.InPhase(d, Preparing) then Some(Preparing)
    else if c.InPhase(d, Configured) then Some(Configured)
    else Some(Started)
  }

  /** The states that inspection lets through. */
  predicate Inspectable(c: Config, d: Disk, recover: bool) {
    && (PhaseOf(c, d) in {Some(Preparing), Some(Configured)} ==> recover)
    && d.dropDir != Some(false)
    && (Dropin in d.files ==>
          && d.files[Dropin].settled && d.files[Dropin].content != ""
          && (d.files[Dropin].content == c.conf || (recover && PhaseOf(c, d) == Some(Preparing))))
  }

  /** Whether a leftover temporary, if any, can be taken over. */
  predicate Usable(d: Disk, n: Name, recover: bool) {
    n in d.files ==> recover && d.files[n].settled
  }

  /**
   The states from which a configuration runs to its end.  With `recover` only
   an empty or unsettled drop-in, an unsettled drop-in directory and unsettled
   temporaries are excluded.
   */
  predicate CanConfigure(c: Config, d: Disk, recover: bool) {
    && Inspectable(c, d, recover)
    && Usable(d, Temp(Journal, c.JournalText(Preparing)), recover)
    && Usable(d, Temp(RuntimeProfile, RUNTIME_ENABLED), recover)
    && Usable(d, Temp(ApiProfile, API_ENABLED), recover)
    && Usable(d, Temp(Journal, c.JournalText(Configured)), recover)
  }

  /** What keeps a recovery from finishing. */
  predicate Wedged(c: Config, d: Disk) {
    || d.dropDir == Some(false)
    || (Dropin in d.files && (d.files[Dropin].content == "" || !d.files[Dropin].settled))
    || (exists n :: n in d.files && NeededTemp(c, n) && !d.files[n].settled)
  }

  predicate NeededTemp(c: Config, n: Name) {
    n in {Temp(Journal, c.JournalText(Preparing)), Temp(RuntimeProfile, RUNTIME_ENABLED),
          Temp(ApiProfile, API_ENABLED), Temp(Journal, c.JournalText(Configured))}
  }

  // The same states, told by the bytes and the metadata on the disk.

  /** A journal that says "preparing" or "configured". */
  predicate Interrupted(c: Config, d: Disk) {
    && Journal in d.files
    && d.files[Journal].content in {c.head + "preparing" + c.tail, c.head + "configured" + c.tail}
  }

  predicate OddDropin(c: Config, d: Disk, recover: bool) {
    || d.dropDir == Some(false)
    || (Dropin in d.files && (d.files[Dropin].content == "" || !d.files[Dropin].settled))
    || (Dropin in d.files && d.files[Dropin].content != c.conf
        && !(recover && Journal in d.files && d.files[Journal].content == c.head + "preparing" + c.tail))
  }

  /** Nothing has begun, or everything has been started, and no temporary is left. */
  predicate Settled(c: Config, d: Disk) {
    && (forall n :: n in d.files ==> !n.Temp?)
    && (Journal in d.files ==> d.files[Journal].content == c.head + "started" + c.tail)
    && (Dropin in d.files ==> d.files[Dropin] == File(c.conf, true))
    && d.dropDir != Some(false)
  }

  lemma RefusedFields(c: Config, d: Disk, recover: bool)
    requires Paired(c, d)
    ensures Interrupted(c, d) && !recover ==> !Inspectable(c, d, recover)
    ensures OddDropin(c, d, recover) ==> !Inspectable(c, d, recover)
    ensures !recover && (exists n :: n in d.files && NeededTemp(c, n)) ==> !CanConfigure(c, d, recover)
  {
    PhasesDiffer(c);
  }

  lemma SettledAllows(c: Config, d: Disk, recover: bool)
    requires Paired(c, d) && Settled(c, d)
    ensures CanConfigure(c, d, recover)
  {
    PhasesDiffer(c);
  }

  /** A crash inside a repair leaves odd metadata exactly where mode 0600 is not the demanded one. */
  lemma RepairCrash(c: Config, d: Disk, n: Name)
    requires Enabled(c, d, Loosen(n))
    ensures Apply(c, d, Loosen(n)).files[n].settled <==> exists raw :: n == Temp(Journal, raw)
    ensures n.Dropin? ==> Wedged(c, Apply(c, d, Loosen(n)))
  {
    if n.Temp? && n.target.Journal? {
      assert n == Temp(Journal, n.raw);
    }
  }

  /** In every reachable state recovery succeeds unless the state is wedged. */
  lemma RecoversExactly(c: Config, d0: Disk, log: Log)
    requires Legal(c, d0, log)
    ensures CanConfigure(c, Replay(c, d0, log), true) <==> !Wedged(c, Replay(c, d0, log))
  {
    AlwaysPaired(c, d0, log);
    PhasesDiffer(c);
  }

  lemma LegalSnoc(c: Config, d0: Disk, log: Log, op: Change)
    requires Legal(c, d0, log) && Enabled(c, Replay(c, d0, log), op)
    ensures Legal(c, d0, log + [op]) && Replay(c, d0, log + [op]) == Apply(c, Replay(c, d0, log), op)
  {
    assert (log + [op])[..|log|] == log;
  }

  /** The calls that journal the intent on a fresh installation. */
  function Intent(c: Config): Log {
    var raw := c.JournalText(Preparing);
    var temp := Temp(Journal, raw);
    [Create(temp), Settle(temp), Append(temp, raw)] + [Publish(Journal, raw)]
  }

  lemma FirstCall(c: Config, d0: Disk, op: Change)
    requires Installed(c, d0) && Enabled(c, d0, op)
    ensures Legal(c, d0, [op]) && Replay(c, d0, [op]) == Apply(c, d0, op)
  {
    assert [] + [op] == [op];
    LegalSnoc(c, d0, [], op);
  }

  lemma IntentCreated(c: Config, d0: Disk, temp: Name)
    requires Installed(c, d0) && temp == Temp(Journal, c.JournalText(Preparing))
    ensures var log := [Create(temp), Settle(temp)];
            Legal(c, d0, log) && Replay(c, d0, log) == d0.(files := d0.files[temp := File("", true)])
  {
    FirstCall(c, d0, Create(temp));
    var first: Log := [Create(temp)];
    assert first + [Settle(temp)] == [Create(temp), Settle(temp)];
    LegalSnoc(c, d0, first, Settle(temp));
  }

  lemma IntentWritten(c: Config, d0: Disk)
    requires Installed(c, d0)
    ensures var raw := c.JournalText(Preparing);
            var temp := Temp(Journal, raw);
            var log := [Create(temp), Settle(temp), Append(temp, raw)];
            Legal(c, d0, log) && Replay(c, d0, log) == d0.(files := d0.files[temp := File(raw, true)])
  {
    var raw := c.JournalText(Preparing);
    var temp := Temp(Journal, raw);
    IntentCreated(c, d0, temp);
    assert "" + raw == raw;
    LegalSnoc(c, d0, [Create(temp), Settle(temp)], Append(temp, raw));
    assert [Create(temp), Settle(temp)] + [Append(temp, raw)] == [Create(temp), Settle(temp), Append(temp, raw)];
  }

  lemma IntentJournalled(c: Config, d0: Disk)
    requires Installed(c, d0)
    ensures Legal(c, d0, Intent(c)) && c.InPhase(Replay(c, d0, Intent(c)), Preparing)
    ensures Replay(c, d0, Intent(c)).dropDir == d0.dropDir && Dropin !in Replay(c, d0, Intent(c)).files
  {
    var raw := c.JournalText(Preparing);
    var temp := Temp(Journal, raw);
    IntentWritten(c, d0);
    LegalSnoc(c, d0, [Create(temp), Settle(temp), Append(temp, raw)], Publish(Journal, raw));
  }

  /** The calls up to the drop-in directory, which is made unless it is there. */
  function Directory(c: Config, d0: Disk, born: bool): Log {
    if d0.dropDir.None? then Intent(c) + [MakeDir(born)] + [SettleDir] else Intent(c)
  }

  lemma DirectoryReady(c: Config, d0: Disk, born: bool)
    requires Installed(c, d0)
    ensures Legal(c, d0, Directory(c, d0, born))
    ensures var d := Replay(c, d0, Directory(c, d0, born));
            c.InPhase(d, Preparing) && d.dropDir == Some(true) && Dropin !in d.files
  {
    IntentJournalled(c, d0);
    if d0.dropDir.None? {
      LegalSnoc(c, d0, Intent(c), MakeDir(born));
      LegalSnoc(c, d0, Intent(c) + [MakeDir(born)], SettleDir);
    }
  }

  /** A crash right after the drop-in is created is such a state, in every installation. */
  lemma WedgedExample(c: Config, d0: Disk, born: bool)
    requires Installed(c, d0)
    ensures Legal(c, d0, Directory(c, d0, born) + [Create(Dropin)])
    ensures Wedged(c, Replay(c, d0, Directory(c, d0, born) + [Create(Dropin)]))
  {
    DirectoryReady(c, d0, born);
    LegalSnoc(c, d0, Directory(c, d0, born), Create(Dropin));
  }

  function Published(d: Disk, target: Name, raw: string): Disk {
    d.(files := (d.files - {Temp(target, raw)})[target := File(raw, true)])
  }

  /** A complete temporary changes neither the right to publish nor the result. */
  lemma TemporaryAside(c: Config, d: Disk, target: Name, raw: string)
    requires c.MayPublish(d, target, raw)
    ensures var d' := d.(files := d.files[Temp(target, raw) := File(raw, true)]);
            && Enabled(c, d', Publish(target, raw))
            && Apply(c, d', Publish(target, raw)) == Published(d, target, raw)
  {
    var d' := d.(files := d.files[Temp(target, raw) := File(raw, true)]);
    assert c.MayPublish(d', target, raw);
    assert d'.files - {Temp(target, raw)} == d.files - {Temp(target, raw)};
  }

  /** Temporaries other than `own` are the same on both disks. */
  ghost predicate OtherTempsKept(d: Disk, d': Disk, own: Name) {
    forall n: Name :: n.Temp? && n != own ==>
      (n in d'.files <==> n in d.files) && (n in d.files ==> d'.files[n] == d.files[n])
  }

  lemma UsableKept(d: Disk, d': Disk, own: Name, n: Name, recover: bool)
    requires OtherTempsKept(d, d', own) && n.Temp? && n != own
    ensures Usable(d', n, recover) <==> Usable(d, n, recover)
  {
  }

  /** Writing a file leaves the right to write it. */
  lemma ContentAside(c: Config, d: Disk, n: Name, content: string)
    requires Creatable(c, d, n) && n in d.files
    ensures Creatable(c, d.WithContent(n, content), n)
  {
  }

  lemma ContentSame(d: Disk, n: Name)
    requires n in d.files
    ensures d.WithContent(n, d.files[n].content) == d
  {
    assert d.files[n := d.files[n]] == d.files;
  }

  lemma ContentTwice(d: Disk, n: Name, x: string, y: string)
    requires n in d.files
    ensures d.WithContent(n, x).WithContent(n, y) == d.WithContent(n, y)
  {
  }

  /** Temporaries with odd metadata are the same on both disks. */
  ghost predicate UnsettledKept(d: Disk, d': Disk) {
    forall n: Name :: n.Temp? && n in d.files && !d.files[n].settled ==> n in d'.files && d'.files[n] == d.files[n]
  }

  lemma PublishedKeepsUnsettled(d: Disk, target: Name, raw: string, recover: bool)
    requires Usable(d, Temp(target, raw), recover) && !target.Temp?
    ensures UnsettledKept(d, Published(d, target, raw))
  {
  }

  lemma WedgedCannot(c: Config, d: Disk, recover: bool)
    requires Wedged(c, d)
    ensures !CanConfigure(c, d, recover)
  {
  }

  lemma StaysWedged(c: Config, d: Disk, d': Disk, recover: bool)
    requires Wedged(c, d) && UnsettledKept(d, d') && (!Inspectable(c, d, recover) ==> d' == d)
    ensures Wedged(c, d')
  {
    if Inspectable(c, d, recover) {
      var n :| n in d.files && NeededTemp(c, n) && !d.files[n].settled;
      assert n.Temp? && n in d'.files && !d'.files[n].settled;
    }
  }

  lemma RuntimeEnabled(c: Config, d: Disk, recover: bool)
    requires c.InPhase(d, Preparing) && c.Has(d, Dropin, c.conf)
    ensures c.MayPublish(d, RuntimeProfile, RUNTIME_ENABLED)
    ensures var d' := Published(d, RuntimeProfile, RUNTIME_ENABLED);
            && c.InPhase(d', Preparing) && c.Has(d', Dropin, c.conf) && c.Has(d', RuntimeProfile, RUNTIME_ENABLED)
            && forall n: Name :: n.Temp? && n.target != RuntimeProfile ==> (Usable(d', n, recover) <==> Usable(d, n, recover))
  {
  }

  lemma ApiEnabled(c: Config, d: Disk, recover: bool)
    requires c.InPhase(d, Preparing) && c.Has(d, Dropin, c.conf) && c.Has(d, RuntimeProfile, RUNTIME_ENABLED)
    ensures c.MayPublish(d, ApiProfile, API_ENABLED)
    ensures var d' := Published(d, ApiProfile, API_ENABLED);
            && c.BothEnabled(d') && c.MayPublish(d', Journal, c.JournalText(Configured))
            && forall n: Name :: n.Temp? && n.target != ApiProfile ==> (Usable(d', n, recover) <==> Usable(d, n, recover))
  {
  }

  lemma ConfiguredReached(c: Config, d: Disk)
    requires c.BothEnabled(d)
    ensures var d' := Published(d, Journal, c.JournalText(Configured));
            c.InPhase(d', Configured) && c.BothEnabled(d')
  {
  }

  /** The three publications that follow the drop-in, each of which clears the way for the next. */
  lemma EnableChain(c: Config, d: Disk, recover: bool)
    requires c.InPhase(d, Preparing) && c.Has(d, Dropin, c.conf)
    ensures c.MayPublish(d, RuntimeProfile, RUNTIME_ENABLED)
    ensures var d1 := Published(d, RuntimeProfile, RUNTIME_ENABLED);
            && c.MayPublish(d1, ApiProfile, API_ENABLED)
            && (Usable(d1, Temp(ApiProfile, API_ENABLED), recover)
                <==> Usable(d, Temp(ApiProfile, API_ENABLED), recover))
            && var d2 := Published(d1, ApiProfile, API_ENABLED);
               && c.MayPublish(d2, Journal, c.JournalText(Configured))
               && (Usable(d2, Temp(Journal, c.JournalText(Configured)), recover)
                   <==> Usable(d, Temp(Journal, c.JournalText(Configured)), recover))
               && var d3 := Published(d2, Journal, c.JournalText(Configured));
                  c.InPhase(d3, Configured) && c.BothEnabled(d3)
  {
    RuntimeEnabled(c, d, recover);
    var d1 := Published(d, RuntimeProfile, RUNTIME_ENABLED);
    ApiEnabled(c, d1, recover);
    ConfiguredReached(c, Published(d1, ApiProfile, API_ENABLED));
  }

  /** Where an external check, or the quiescence check, may fail. */
  datatype Checkpoint = Nowhere | AtInspect | BeforeJournal | BeforeRuntime | BeforeApi

  class Transaction {
    const c: Config
    ghost const d0: Disk
    var disk: Disk
    ghost var log: Log

    ghost predicate Valid()
      reads this
    {
      Legal(c, d0, log) && disk == Replay(c, d0, log)
    }

    constructor (c: Config, disk: Disk, ghost d0: Disk, ghost log: Log)
      requires Legal(c, d0, log) && disk == Replay(c, d0, log)
      ensures Valid() && this.c == c && this.disk == disk && this.log == log
    {
      this.c := c;
      this.d0 := d0;
      this.disk := disk;
      this.log := log;
    }

    method Issue(op: Change)
      requires Valid() && Enabled(c, disk, op)
      modifies this
      ensures Valid() && log == old(log) + [op] && disk == Apply(c, old(disk), op)
    {
      disk := Apply(c, disk, op);
      log := log + [op];
      assert log[..|log| - 1] == old(log);
    }

    /** One write call, which takes `k` more bytes. */
    method WritePiece(n: Name, done: nat, k: nat)
      requires Valid() && Creatable(c, disk, n) && n in disk.files && 0 < k <= |c.Wanted(n)| - done
      requires disk.files[n].content == c.Wanted(n)[..done]
      modifies this
      ensures Valid() && old(log) <= log && Creatable(c, disk, n)
      ensures disk == old(disk).WithContent(n, c.Wanted(n)[..done + k])
    {
      ContentAside(c, disk, n, c.Wanted(n)[..done + k]);
      assert c.Wanted(n)[..done] + c.Wanted(n)[done..done + k] == c.Wanted(n)[..done + k];
      Issue(Append(n, c.Wanted(n)[done..done + k]));
    }

    /** Writes the rest of the wanted bytes, in as many pieces as the system takes. */
    method Fill(n: Name)
      requires Valid() && Creatable(c, disk, n) && n in disk.files
      requires disk.files[n].content <= c.Wanted(n)
      modifies this
      ensures Valid() && old(log) <= log
      ensures disk == old(disk).WithContent(n, c.Wanted(n))
    {
      var wanted, done := c.Wanted(n), |disk.files[n].content|;
      ContentSame(disk, n);
      while done < |wanted|
        invariant Valid() && old(log) <= log
        invariant Creatable(c, disk, n) && n in disk.files && done <= |wanted|
        invariant disk.files[n].content == wanted[..done]
        invariant disk == old(disk).WithContent(n, wanted[..done])
      {
        var k :| 0 < k <= |wanted| - done;
        ContentTwice(old(disk), n, wanted[..done], wanted[..done + k]);
        WritePiece(n, done, k);
        done := done + k;
      }
      assert wanted[..done] == wanted;
    }

    method Repair(n: Name)
      requires Valid() && Creatable(c, disk, n) && n in disk.files
      requires disk.files[n].content <= c.Wanted(n) && disk.files[n].content != c.Wanted(n)
      modifies this
      ensures Valid() && old(log) <= log
      ensures disk == old(disk).(files := old(disk).files[n := File(c.Wanted(n), true)])
    {
      Issue(Loosen(n));
      Fill(n);
      Issue(Settle(n));
    }

    method CreateFile(n: Name, allowExisting: bool, repair: bool) returns (ok: bool)
      requires Valid() && Paired(c, disk) && Creatable(c, disk, n)
      modifies this
      ensures Valid() && old(log) <= log
      ensures ok <==> n in old(disk).files ==>
                        && allowExisting && old(disk).files[n].settled
                        && (old(disk).files[n].content == c.Wanted(n) || repair)
      ensures ok ==> disk == old(disk).(files := old(disk).files[n := File(c.Wanted(n), true)])
      ensures !ok ==> disk == old(disk)
    {
      if n in disk.files {
        if !allowExisting || !disk.files[n].settled {
          return false;
        }
        if disk.files[n].content == c.Wanted(n) {
          assert disk.files == disk.files[n := File(c.Wanted(n), true)];
          return true;
        }
        if !repair {
          return false;
        }
        Repair(n);
        return true;
      }
      CreateNew(n);
      return true;
    }

    method CreateNew(n: Name)
      requires Valid() && Creatable(c, disk, n) && n !in disk.files
      modifies this
      ensures Valid() && old(log) <= log
      ensures disk == old(disk).(files := old(disk).files[n := File(c.Wanted(n), true)])
    {
      Issue(Create(n));
      Issue(Settle(n));
      Fill(n);
    }

    /** Publishes `raw` as `target` through its temporary. */
    method Replace(target: Name, raw: string, recover: bool) returns (ok: bool)
      requires Valid() && Paired(c, disk) && c.MayPublish(disk, target, raw)
      modifies this
      ensures Valid() && old(log) <= log
      ensures ok <==> Usable(old(disk), Temp(target, raw), recover)
      ensures ok ==> disk == Published(old(disk), target, raw)
      ensures !ok ==> disk == old(disk)
      ensures UnsettledKept(old(disk), disk)
    {
      ok := CreateFile(Temp(target, raw), recover, recover);
      if ok {
        TemporaryAside(c, old(disk), target, raw);
        Issue(Publish(target, raw));
        PublishedKeepsUnsettled(old(disk), target, raw, recover);
      }
    }

    method Inspect(recover: bool, fault: Checkpoint) returns (ok: bool, phase: Option<Phase>)
      requires Valid()
      ensures ok <==> fault != AtInspect && Inspectable(c, disk, recover)
      ensures ok ==> (phase.None? <==> Journal !in disk.files)
      ensures ok && phase.Some? ==> disk.files[Journal].content == c.head + Word(phase.value) + c.tail
    {
      AlwaysPaired(c, d0, log);
      PhasesDiffer(c);
      phase := None;
      if Journal in disk.files {
        var raw := disk.files[Journal].content;
        phase := Some(if raw == c.JournalText(Preparing) then Preparing
                      else if raw == c.JournalText(Configured) then Configured else Started);
      }
      ok := fault != AtInspect && (phase in {Some(Preparing), Some(Configured)} ==> recover);
      var runtime, api := disk.files[RuntimeProfile].content, disk.files[ApiProfile].content;
      if (phase.None? && (runtime != RUNTIME_DISABLED || api != API_DISABLED))
         || (phase == Some(Started) && (runtime != RUNTIME_ENABLED || api != API_ENABLED)) {
        ok := false;
      }
      if disk.dropDir.Some? {
        if !disk.dropDir.value {
          ok := false;
        } else if Dropin in disk.files {
          var existing := disk.files[Dropin];
          if !existing.settled || existing.content == ""
             || (existing.content != c.conf
                 && !(recover && phase == Some(Preparing) && existing.content <= c.conf)) {
            ok := false;
          }
        }
      }
    }

    /** Puts the drop-in directory and the drop-in in place. */
    method PlaceDropin(recover: bool)
      requires Valid() && Paired(c, disk) && c.InPhase(disk, Preparing) && disk.dropDir != Some(false)
      requires Dropin in disk.files ==> disk.files[Dropin].settled
      requires Dropin in disk.files ==> disk.files[Dropin].content == c.conf || recover
      modifies this
      ensures Valid() && old(log) <= log
      ensures disk == Disk(old(disk).files[Dropin := File(c.conf, true)], Some(true))
    {
      if disk.dropDir.None? {
        var born: bool := *;
        Issue(MakeDir(born));
        Issue(SettleDir);
        AlwaysPaired(c, d0, log);
      }
      assert disk.dropDir.Some? && disk.dropDir.value;
      var created := CreateFile(Dropin, true, recover);
    }

    /** Journals the intent, then places the drop-in. */
    method Prepare(recover: bool) returns (ok: bool)
      requires Valid() && Paired(c, disk) && Inspectable(c, disk, recover)
      modifies this
      ensures Valid() && old(log) <= log
      ensures ok <==> Usable(old(disk), Temp(Journal, c.JournalText(Preparing)), recover)
      ensures ok ==> c.InPhase(disk, Preparing) && c.Has(disk, Dropin, c.conf)
      ensures OtherTempsKept(old(disk), disk, Temp(Journal, c.JournalText(Preparing)))
      ensures UnsettledKept(old(disk), disk)
    {
      ok := Replace(Journal, c.JournalText(Preparing), recover);
      if ok {
        AlwaysPaired(c, d0, log);
        PlaceDropin(recover);
      }
    }

    /** Enables the API profile, then records the pair as configured. */
    method EnableApi(recover: bool, fault: Checkpoint) returns (ok: bool)
      requires Valid() && c.InPhase(disk, Preparing) && c.Has(disk, Dropin, c.conf)
      requires c.Has(disk, RuntimeProfile, RUNTIME_ENABLED)
      modifies this
      ensures Valid() && old(log) <= log
      ensures ok <==> && fault != BeforeApi
                      && Usable(old(disk), Temp(ApiProfile, API_ENABLED), recover)
                      && Usable(old(disk), Temp(Journal, c.JournalText(Configured)), recover)
      ensures ok ==> c.InPhase(disk, Configured) && c.BothEnabled(disk)
      ensures UnsettledKept(old(disk), disk)
    {
      if fault == BeforeApi {
        return false;
      }
      ApiEnabled(c, disk, recover);
      AlwaysPaired(c, d0, log);
      ok := Replace(ApiProfile, API_ENABLED, recover);
      if !ok {
        return;
      }
      AlwaysPaired(c, d0, log);
      ConfiguredReached(c, disk);
      ok := Replace(Journal, c.JournalText(Configured), recover);
    }

    /** Enables the Runtime profile, then the API profile, then records the pair as configured. */
    method Enable(recover: bool, fault: Checkpoint) returns (ok: bool)
      requires Valid() && c.InPhase(disk, Preparing) && c.Has(disk, Dropin, c.conf)
      modifies this
      ensures Valid() && old(log) <= log
      ensures ok <==> && fault !in {BeforeRuntime, BeforeApi}
                      && Usable(old(disk), Temp(RuntimeProfile, RUNTIME_ENABLED), recover)
                      && Usable(old(disk), Temp(ApiProfile, API_ENABLED), recover)
                      && Usable(old(disk), Temp(Journal, c.JournalText(Configured)), recover)
      ensures ok ==> c.InPhase(disk, Configured) && c.BothEnabled(disk)
      ensures UnsettledKept(old(disk), disk)
    {
      if fault == BeforeRuntime {
        return false;
      }
      RuntimeEnabled(c, disk, recover);
      AlwaysPaired(c, d0, log);
      ok := Replace(RuntimeProfile, RUNTIME_ENABLED, recover);
      if !ok {
        return;
      }
      ok := EnableApi(recover, fault);
    }

    /** What follows a passed inspection. */
    method Proceed(recover: bool, fault: Checkpoint) returns (ok: bool)
      requires Valid() && Paired(c, disk) && Inspectable(c, disk, recover)
      modifies this
      ensures Valid() && old(log) <= log
      ensures ok <==> fault !in {BeforeJournal, BeforeRuntime, BeforeApi} && CanConfigure(c, old(disk), recover)
      ensures ok ==> c.InPhase(disk, Configured) && c.BothEnabled(disk)
      ensures UnsettledKept(old(disk), disk)
    {
      if fault == BeforeJournal {
        return false;
      }
      var prepared := Prepare(recover);
      if !prepared {
        return false;
      }
      PhasesDiffer(c);
      var intent := Temp(Journal, c.JournalText(Preparing));
      UsableKept(old(disk), disk, intent, Temp(RuntimeProfile, RUNTIME_ENABLED), recover);
      UsableKept(old(disk), disk, intent, Temp(ApiProfile, API_ENABLED), recover);
      UsableKept(old(disk), disk, intent, Temp(Journal, c.JournalText(Configured)), recover);
      ok := Enable(recover, fault);
    }

    method Configure(recover: bool, fault: Checkpoint) returns (ok: bool)
      requires Valid()
      modifies this
      ensures Valid() && old(log) <= log
      ensures ok <==> fault.Nowhere? && CanConfigure(c, old(disk), recover)
      ensures ok ==> c.InPhase(disk, Configured) && c.BothEnabled(disk)
      ensures !Inspectable(c, old(disk), recover) ==> disk == old(disk)
      // an interrupted activation is taken up only on request
      ensures !recover && Interrupted(c, old(disk)) ==> !ok && disk == old(disk)
      ensures !recover && (exists n :: n in old(disk).files && NeededTemp(c, n)) ==> !ok
      // a drop-in that is not the expected one, or not yet, stops everything
      ensures OddDropin(c, old(disk), recover) ==> !ok && disk == old(disk)
      // otherwise nothing is in the way: of a recovery, of a first or of a repeated activation
      ensures fault.Nowhere? && recover && !Wedged(c, old(disk)) ==> ok
      ensures fault.Nowhere? && Settled(c, old(disk)) ==> ok
      // no configuration ever gets a wedged installation going again
      ensures Wedged(c, old(disk)) ==> !ok && Wedged(c, disk)
    {
      AlwaysPaired(c, d0, log);
      RecoversExactly(c, d0, log);
      RefusedFields(c, disk, recover);
      if Settled(c, disk) {
        SettledAllows(c, disk, recover);
      }
      var inspected, phase := Inspect(recover, fault);
      if !inspected {
        return false;
      }
      ok := Proceed(recover, fault);
      if Wedged(c, old(disk)) {
        WedgedCannot(c, old(disk), recover);
        StaysWedged(c, old(disk), disk, recover);
      }
    }

    /** Called after `Configure` and a successful start of the services. */
    method MarkStarted(recover: bool) returns (ok: bool)
      requires Valid() && c.InPhase(disk, Configured)
      modifies this
      ensures Valid() && old(log) <= log
      ensures ok <==> Usable(old(disk), Temp(Journal, c.JournalText(Started)), recover)
      ensures ok ==> c.InPhase(disk, Started) && c.BothEnabled(disk)
      ensures !ok ==> disk == old(disk)
    {
      AlwaysPaired(c, d0, log);
      ok := Replace(Journal, c.JournalText(Started), recover);
    }
  }
}
