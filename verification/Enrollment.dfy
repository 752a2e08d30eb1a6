/**
 Crash-safe publication of the vendor enrollment record.

 One directory holds at most two names, PENDING and RECORD, which may be hard
 links to one inode.  A publication stages PENDING, links it to RECORD and
 unlinks PENDING; it may stop between any two file system calls.

 The file system calls form a transition system over `Disk`; a `Log` of calls
 replays to a disk, so the crash states of a publication are the prefixes of
 its log.  `Publisher` is the program, proved to extend the log legally.
 */
module Enrollment {
  import opened Common

  const LIMIT := 1024
  const MODE_STAGING := 384 // 0o600
  const MODE_READY := 288   // 0o440

  /** Canonical encoded observation: never empty, at most `LIMIT` bytes. */
  type Payload = raw: bytes | 0 < |raw| <= LIMIT witness [0]

  /** The group of the root user, of the runtime, and of new files of the process. */
  datatype Gids = Gids(root: nat, runtime: nat, process: nat)

  datatype Inode = Inode(content: bytes, gid: nat, mode: nat, links: nat)

  datatype Disk = Disk(inodes: map<nat, Inode>, pending: Option<nat>, record: Option<nat>) {
    /** Number of names that point at inode `i`. */
    function Names(i: nat): nat {
      (if pending == Some(i) then 1 else 0) + (if record == Some(i) then 1 else 0)
    }

    predicate Staging() {
      pending.Some? && record.None? && pending.value in inodes
    }

    function Staged(): Inode
      requires Staging()
    {
      inodes[pending.value]
    }

    function WithStaged(node: Inode): Disk
      requires Staging()
    {
      this.(inodes := inodes[pending.value := node])
    }

    /** Published and cleaned up: only RECORD is left, with one link. */
    predicate Done(g: Gids, raw: bytes) {
      && pending.None? && record.Some?
      && inodes == map[record.value := Inode(raw, g.runtime, MODE_READY, 1)]
    }
  }

  const EMPTY := Disk(map[], None, None)

  /** The file system calls that change the directory or an inode. */
  datatype Change =
    | Create(ino: nat)
    | OwnRoot
    | Append(piece: bytes)
    | OwnRuntime
    | MakeReady
    | Link
    | Unlink

  /** The state in which a publication of `raw` is allowed to issue `c`. */
  predicate Enabled(g: Gids, raw: bytes, d: Disk, c: Change) {
    match c
    case Create(i) => d.pending.None? && d.record.None? && i !in d.inodes
    case OwnRoot =>
      d.Staging() && d.Staged().mode == MODE_STAGING && d.Staged().content == []
    case Append(piece) =>
      && d.Staging() && d.Staged().mode == MODE_STAGING && d.Staged().gid == g.root
      && d.Staged().content + piece <= raw
    case OwnRuntime =>
      && d.Staging() && d.Staged().mode == MODE_STAGING && d.Staged().gid == g.root
      && d.Staged().content == raw
    case MakeReady =>
      && d.Staging() && d.Staged().mode == MODE_STAGING && d.Staged().gid == g.runtime
      && d.Staged().content == raw
    case Link =>
      && d.Staging() && d.Staged().mode == MODE_READY && d.Staged().gid == g.runtime
      && d.Staged().content == raw
    case Unlink =>
      && d.pending.Some? && d.record == d.pending && d.record.value in d.inodes
      && d.inodes[d.record.value].links == 2 && d.inodes[d.record.value].content == raw
  }

  function Apply(g: Gids, raw: bytes, d: Disk, c: Change): Disk
    requires Enabled(g, raw, d, c)
  {
    match c
    case Create(i) =>
      d.(inodes := d.inodes[i := Inode([], g.process, MODE_STAGING, 1)], pending := Some(i))
    case OwnRoot => d.WithStaged(d.Staged().(gid := g.root))
    case Append(piece) => d.WithStaged(d.Staged().(content := d.Staged().content + piece))
    case OwnRuntime => d.WithStaged(d.Staged().(gid := g.runtime))
    case MakeReady => d.WithStaged(d.Staged().(mode := MODE_READY))
    case Link => d.WithStaged(d.Staged().(links := d.Staged().links + 1)).(record := d.pending)
    case Unlink =>
      var i := d.record.value;
      d.(inodes := d.inodes[i := d.inodes[i].(links := d.inodes[i].links - 1)], pending := None)
  }

  /** One file system call, issued on behalf of a publication of `raw`. */
  datatype Entry = Entry(raw: Payload, change: Change)

  type Log = seq<Entry>

  /** `log` is what some sequence of publications, each cut off anywhere, may have done. */
  predicate Legal(g: Gids, log: Log)
    decreases |log|, 0
  {
    log != [] ==>
      var last := |log| - 1;
      Legal(g, log[..last]) && Enabled(g, log[last].raw, Replay(g, log[..last]), log[last].change)
  }

  function Replay(g: Gids, log: Log): Disk
    requires Legal(g, log)
    decreases |log|, 1
  {
    if log == [] then EMPTY
    else
      var last := |log| - 1;
      Apply(g, log[last].raw, Replay(g, log[..last]), log[last].change)
  }

  lemma {:induction false} LegalPrefix(g: Gids, log: Log, k: nat)
    requires Legal(g, log) && k <= |log|
    ensures Legal(g, log[..k])
  {
    if k < |log| {
      LegalPrefix(g, log[..|log| - 1], k);
      assert log[..|log| - 1][..k] == log[..k];
    } else {
      assert log[..k] == log;
    }
  }

  predicate ByCaller(log: Log, content: bytes) {
    exists k :: 0 <= k < |log| && log[k].raw == content
  }

  predicate PrefixOfCaller(log: Log, content: bytes) {
    content == [] || exists k :: 0 <= k < |log| && content <= log[k].raw
  }

  /** What holds of the disk after every legal log. */
  predicate Sound(g: Gids, d: Disk, log: Log) {
    // link counts are the number of names, and no inode is left without a name
    && (forall i :: i in d.inodes ==> d.inodes[i].links == d.Names(i) && d.Names(i) > 0)
    && (d.pending.Some? ==> d.pending.value in d.inodes)
    && (d.record.Some? ==> d.record.value in d.inodes)
    && (d.pending.Some? && d.record.Some? ==> d.pending == d.record)
    // RECORD, and a ready PENDING, hold the complete bytes of one caller
    && (d.record.Some? ==> Complete(g, d.inodes[d.record.value], log))
    && (d.pending.Some? && d.inodes[d.pending.value].mode != MODE_STAGING ==>
          Complete(g, d.inodes[d.pending.value], log))
    // a PENDING still being staged holds a prefix of some caller's bytes
    && (d.pending.Some? && d.inodes[d.pending.value].mode == MODE_STAGING ==>
          && d.record.None?
          && PrefixOfCaller(log, d.inodes[d.pending.value].content))
  }

  predicate Complete(g: Gids, node: Inode, log: Log) {
    node.gid == g.runtime && node.mode == MODE_READY && ByCaller(log, node.content)
  }

  lemma {:induction false} AlwaysSound(g: Gids, log: Log)
    requires Legal(g, log)
    ensures Sound(g, Replay(g, log), log)
  {
    if log != [] {
      var last := |log| - 1;
      AlwaysSound(g, log[..last]);
      StepSound(g, Replay(g, log[..last]), log[..last], log[last]);
      assert log[..last] + [log[last]] == log;
    }
  }

  /** Cut off after any of its calls, a run leaves RECORD absent or complete. */
  lemma CrashLeavesSound(g: Gids, log: Log, k: nat)
    requires Legal(g, log) && k <= |log|
    ensures Legal(g, log[..k]) && Sound(g, Replay(g, log[..k]), log[..k])
  {
    LegalPrefix(g, log, k);
    AlwaysSound(g, log[..k]);
  }

  lemma StepSound(g: Gids, d: Disk, log: Log, e: Entry)
    requires Sound(g, d, log) && Enabled(g, e.raw, d, e.change)
    ensures Sound(g, Apply(g, e.raw, d, e.change), log + [e])
  {
    var log' := log + [e];
    assert log'[|log|] == e;
    assert forall k :: 0 <= k < |log| ==> log'[k] == log[k];
    CallersGrow(log, e);
  }

  lemma CallersGrow(log: Log, e: Entry)
    ensures forall c :: ByCaller(log, c) ==> ByCaller(log + [e], c)
    ensures forall c :: PrefixOfCaller(log, c) ==> PrefixOfCaller(log + [e], c)
  {
    var log' := log + [e];
    assert forall k :: 0 <= k < |log| ==> log'[k] == log[k];
  }

  /** The directory never holds more than one inode. */
  lemma OneInode(g: Gids, d: Disk, log: Log)
    requires Sound(g, d, log)
    ensures d.pending.None? && d.record.None? ==> d.inodes == map[]
    ensures d.pending.Some? ==> d.inodes == map[d.pending.value := d.inodes[d.pending.value]]
    ensures d.record.Some? ==> d.inodes == map[d.record.value := d.inodes[d.record.value]]
  {
  }

  lemma StepKeepsRecord(g: Gids, d: Disk, log: Log, e: Entry)
    requires Sound(g, d, log) && Enabled(g, e.raw, d, e.change) && d.record.Some?
    ensures var d' := Apply(g, e.raw, d, e.change);
            && d'.record == d.record && d.record.value in d'.inodes
            && d'.inodes[d.record.value].content == d.inodes[d.record.value].content
  {
  }

  /** The bytes under RECORD, if there are any. */
  function Recorded(d: Disk): Option<bytes> {
    if d.record.Some? && d.record.value in d.inodes then Some(d.inodes[d.record.value].content) else None
  }

  /** The bytes under PENDING, or none. */
  function Pending(d: Disk): bytes {
    if d.pending.Some? && d.pending.value in d.inodes then d.inodes[d.pending.value].content else []
  }

  /** Once linked, RECORD keeps its inode and its bytes for ever, although PENDING may share the inode. */
  lemma {:induction false} RecordNeverRewritten(g: Gids, log: Log, k: nat)
    requires Legal(g, log) && k <= |log| && Legal(g, log[..k])
    requires Replay(g, log[..k]).record.Some?
    ensures Replay(g, log).record == Replay(g, log[..k]).record
    ensures Recorded(Replay(g, log)).Some? && Recorded(Replay(g, log)) == Recorded(Replay(g, log[..k]))
  {
    if k == |log| {
      assert log[..k] == log;
      AlwaysSound(g, log);
    } else {
      var last := |log| - 1;
      assert log[..last][..k] == log[..k];
      RecordNeverRewritten(g, log[..last], k);
      AlwaysSound(g, log[..last]);
      StepKeepsRecord(g, Replay(g, log[..last]), log[..last], log[last]);
    }
  }

  /** A staged file whose metadata the reader refuses. */
  predicate Stranded(g: Gids, d: Disk) {
    d.Staging() && d.Staged().mode == MODE_STAGING && d.Staged().gid != g.root
  }

  /**
   The only crash points that strand a publication: right after PENDING is
   created by a process of another group than root's, and between the last
   fchown and the fchmod when the two groups differ.
   */
  lemma StrandedExactly(g: Gids, log: Log)
    requires Legal(g, log)
    ensures Stranded(g, Replay(g, log)) <==>
            && log != []
            && var c := log[|log| - 1].change;
               (c.Create? && g.process != g.root) || (c.OwnRuntime? && g.runtime != g.root)
  {
    if log != [] {
      AlwaysSound(g, log[..|log| - 1]);
    }
  }

  /** The states from which a publication of `raw` can go through. */
  predicate Accepts(g: Gids, d: Disk, raw: bytes, recover: bool) {
    && (d.pending.Some? ==> recover)
    && match (d.pending, d.record) {
         case (None, None) => true
         case (_, Some(i)) => i in d.inodes && d.inodes[i].content == raw
         case (Some(i), None) =>
           && i in d.inodes
           && if d.inodes[i].mode == MODE_READY then d.inodes[i].content == raw
              else d.inodes[i].gid == g.root && d.inodes[i].content <= raw
       }
  }

  /** A stranded publication is refused to every caller, recovering or not. */
  lemma StrandedRefused(g: Gids, d: Disk, raw: bytes, recover: bool)
    requires Stranded(g, d)
    ensures !Accepts(g, d, raw, recover)
  {
  }

  /**
   Recovery with the same observation is accepted in every crash state but the
   stranded ones.
   */
  lemma RecoveryAcceptedExactly(g: Gids, log: Log, raw: Payload)
    requires Legal(g, log)
    requires forall k :: 0 <= k < |log| ==> log[k].raw == raw
    ensures Accepts(g, Replay(g, log), raw, true) <==> !Stranded(g, Replay(g, log))
  {
    AlwaysSound(g, log);
  }

  /** A concrete interrupted publication that no later call can finish. */
  lemma StrandedExample()
    ensures var g, raw := Gids(0, 7, 0), [1, 2];
            var log := [Entry(raw, Create(5)), Entry(raw, OwnRoot), Entry(raw, Append([1, 2])),
                        Entry(raw, OwnRuntime)];
            Legal(g, log) && !Accepts(g, Replay(g, log), raw, true)
  {
    var g, raw: Payload := Gids(0, 7, 0), [1, 2];
    var log: Log := [Entry(raw, Create(5)), Entry(raw, OwnRoot), Entry(raw, Append([1, 2])),
                     Entry(raw, OwnRuntime)];
    var d1 := EMPTY.(inodes := map[5 := Inode([], 0, MODE_STAGING, 1)], pending := Some(5));
    var d3 := d1.(inodes := map[5 := Inode(raw, 0, MODE_STAGING, 1)]);
    assert log[..3] == [log[0], log[1], log[2]];
    assert log[..3][..2] == [log[0], log[1]];
    assert [log[0], log[1]][..1] == [log[0]];
    assert Legal(g, []) && Replay(g, []) == EMPTY;
    assert [log[0]][..0] == [];
    assert Legal(g, [log[0]]) && Replay(g, [log[0]]) == d1;
    assert Legal(g, [log[0], log[1]]) && Replay(g, [log[0], log[1]]) == d1;
    assert [] + [1, 2] == raw;
    assert Legal(g, log[..3]) && Replay(g, log[..3]) == d3;
    assert Legal(g, log);
    StrandedExactly(g, log);
    assert forall k :: 0 <= k < |log| ==> log[k].raw == raw;
    RecoveryAcceptedExactly(g, log, raw);
  }

  /** `later` is `log` followed by calls of a publication of `raw` only. */
  predicate Extends(log: Log, later: Log, raw: bytes) {
    log <= later && forall k :: |log| <= k < |later| ==> later[k].raw == raw
  }

  datatype Name = PendingName | RecordName

  datatype Reading = Missing | Refused | Found(content: bytes, ino: nat, node: Inode)

  /** The metadata test of a read. */
  predicate Allowed(g: Gids, node: Inode, pending: bool) {
    && ((node.gid == g.runtime && node.mode == MODE_READY) ||
        (pending && node.gid == g.root && node.mode == MODE_STAGING))
    && 1 <= node.links <= 2
    && |node.content| <= LIMIT
    && (pending && node.mode == MODE_STAGING ==> node.links == 1)
  }

  function Observed(g: Gids, d: Disk, name: Name): Reading
    requires forall i :: d.pending == Some(i) || d.record == Some(i) ==> i in d.inodes
  {
    match if name.PendingName? then d.pending else d.record
    case None => Missing
    case Some(i) =>
      if Allowed(g, d.inodes[i], name.PendingName?) then Found(d.inodes[i].content, i, d.inodes[i])
      else Refused
  }

  /** Where the checks that the caller supplies, or a readback, may fail. */
  datatype Checkpoint = Nowhere | AtEntry | BeforeLink | AtReadback | BeforeUnlink | AtExit

  datatype Outcome = Planned | Published | Recovered | Unchanged | Failed

  class Publisher {
    const g: Gids
    var disk: Disk
    ghost var log: Log

    ghost predicate Valid()
      reads this
    {
      Legal(g, log) && disk == Replay(g, log)
    }

    /** A publisher started on whatever earlier publications left behind. */
    constructor (g: Gids, disk: Disk, ghost log: Log)
      requires Legal(g, log) && disk == Replay(g, log)
      ensures Valid() && this.g == g && this.disk == disk && this.log == log
    {
      this.g := g;
      this.disk := disk;
      this.log := log;
    }

    /** One file system call. */
    method Issue(raw: Payload, c: Change)
      requires Valid() && Enabled(g, raw, disk, c)
      modifies this
      ensures Valid() && log == old(log) + [Entry(raw, c)]
      ensures disk == Apply(g, raw, old(disk), c)
    {
      disk := Apply(g, raw, disk, c);
      log := log + [Entry(raw, c)];
      assert log[..|log| - 1] == old(log);
    }

    method Read(name: Name) returns (r: Reading)
      requires Valid() && Sound(g, disk, log)
      ensures r == Observed(g, disk, name)
    {
      var entry := if name.PendingName? then disk.pending else disk.record;
      if entry.None? {
        return Missing;
      }
      var before := disk.inodes[entry.value];
      if !Allowed(g, before, name.PendingName?) {
        return Refused;
      }
      var chunks: bytes := [];
      while |chunks| < |before.content|
        invariant chunks <= before.content
      {
        var n :| 0 < n <= |before.content| - |chunks|;
        chunks := chunks + before.content[|chunks|..|chunks| + n];
      }
      r := Found(chunks, entry.value, before);
    }

    /** Creates PENDING, empty and private to root. */
    method Begin(raw: Payload, ino: nat)
      requires Valid() && disk == EMPTY
      modifies this
      ensures Valid() && Extends(old(log), log, raw)
      ensures disk == Disk(map[ino := Inode([], g.root, MODE_STAGING, 1)], Some(ino), None)
    {
      Issue(raw, Create(ino));
      Issue(raw, OwnRoot);
    }

    /** Hands a completely written PENDING over to the runtime group. */
    method Seal(raw: Payload, i: nat)
      requires Valid() && disk == Disk(map[i := Inode(raw, g.root, MODE_STAGING, 1)], Some(i), None)
      modifies this
      ensures Valid() && Extends(old(log), log, raw)
      ensures disk == Disk(map[i := Inode(raw, g.runtime, MODE_READY, 1)], Some(i), None)
    {
      Issue(raw, OwnRuntime);
      Issue(raw, MakeReady);
    }

    /** One write call, which takes `n` more bytes. */
    method WritePiece(raw: Payload, i: nat, done: nat, n: nat)
      requires Valid() && 0 < n <= |raw| - done
      requires disk == Disk(map[i := Inode(raw[..done], g.root, MODE_STAGING, 1)], Some(i), None)
      modifies this
      ensures Valid() && Extends(old(log), log, raw)
      ensures disk == Disk(map[i := Inode(raw[..done + n], g.root, MODE_STAGING, 1)], Some(i), None)
    {
      assert raw[..done] + raw[done..done + n] == raw[..done + n];
      Issue(raw, Append(raw[done..done + n]));
    }

    /** Writes PENDING from `offset` on, in as many pieces as the system takes. */
    method Fill(raw: Payload, i: nat, offset: nat)
      requires Valid() && offset <= |raw|
      requires disk == Disk(map[i := Inode(raw[..offset], g.root, MODE_STAGING, 1)], Some(i), None)
      modifies this
      ensures Valid() && Extends(old(log), log, raw)
      ensures disk == Disk(map[i := Inode(raw, g.root, MODE_STAGING, 1)], Some(i), None)
    {
      var done := offset;
      while done < |raw|
        invariant Valid() && Extends(old(log), log, raw)
        invariant offset <= done <= |raw|
        invariant disk == Disk(map[i := Inode(raw[..done], g.root, MODE_STAGING, 1)], Some(i), None)
      {
        var n :| 0 < n <= |raw| - done;
        WritePiece(raw, i, done, n);
        done := done + n;
      }
      assert raw[..done] == raw;
    }

    /** Brings PENDING to its ready form, from nothing or from an interrupted stage. */
    method Stage(raw: Payload, pending: Reading, ino: nat) returns (ok: bool)
      requires Valid() && Sound(g, disk, log) && disk.record.None? && ino !in disk.inodes
      requires pending == Observed(g, disk, PendingName) && !pending.Refused?
      modifies this
      ensures Valid() && Extends(old(log), log, raw)
      ensures ok <==> Accepts(g, old(disk), raw, true)
      ensures !ok ==> log == old(log) && disk == old(disk)
      ensures ok ==> disk.Staging()
      ensures ok ==> disk.inodes == map[disk.pending.value := Inode(raw, g.runtime, MODE_READY, 1)]
    {
      OneInode(g, disk, log);
      if pending.Found? && pending.content == raw && pending.node.mode == MODE_READY {
        return pending.node.links == 1;
      }
      if pending.Found? && !(pending.node.mode == MODE_STAGING && pending.node.gid == g.root
                             && pending.node.links == 1 && pending.content <= raw) {
        return false;
      }
      if pending.Missing? {
        Begin(raw, ino);
        Fill(raw, ino, 0);
        Seal(raw, ino);
      } else {
        assert raw[..|pending.content|] == pending.content;
        Fill(raw, pending.ino, |pending.content|);
        Seal(raw, pending.ino);
      }
      return true;
    }

    /** The checks made before anything is touched. */
    method Admit(raw: Payload, recover: bool, record: Reading, pending: Reading) returns (ok: bool)
      requires Valid() && Sound(g, disk, log)
      requires record == Observed(g, disk, RecordName) && pending == Observed(g, disk, PendingName)
      ensures ok <==> Accepts(g, disk, raw, recover)
    {
      if record.Refused? || pending.Refused? {
        return false;
      }
      if record.Found? && record.content != raw {
        return false;
      }
      if pending.Found? && (!recover || !(pending.content <= raw)) {
        return false;
      }
      if pending.Found? && pending.node.mode == MODE_READY && pending.content != raw {
        return false;
      }
      ok := record.Found? ==>
        if pending.Found? then
          record.node.links == 2 == pending.node.links && record.ino == pending.ino && pending.content == raw
        else record.node.links == 1;
    }

    /** Stages PENDING and gives it its second name. */
    method Install(raw: Payload, pending: Reading, ino: nat, fault: Checkpoint) returns (ok: bool)
      requires Valid() && Sound(g, disk, log) && disk.record.None? && ino !in disk.inodes
      requires pending == Observed(g, disk, PendingName) && Accepts(g, disk, raw, true)
      modifies this
      ensures Valid() && Extends(old(log), log, raw)
      ensures ok <==> fault != BeforeLink
      ensures !ok ==> disk.record.None?
      ensures ok ==> disk.pending.Some? && disk.record == disk.pending
      ensures ok ==> disk.inodes == map[disk.record.value := Inode(raw, g.runtime, MODE_READY, 2)]
    {
      var staged := Stage(raw, pending, ino);
      if !staged || fault == BeforeLink {
        return false;
      }
      Issue(raw, Link);
      return true;
    }

    /** Checks that both names show the same complete file, then drops PENDING. */
    method Retire(raw: Payload, fault: Checkpoint) returns (ok: bool)
      requires Valid() && Sound(g, disk, log)
      requires disk.pending.Some? && disk.record == disk.pending
      requires disk.inodes == map[disk.record.value := Inode(raw, g.runtime, MODE_READY, 2)]
      modifies this
      ensures Valid() && Extends(old(log), log, raw)
      ensures ok <==> fault !in {AtReadback, BeforeUnlink}
      ensures ok ==> disk.Done(g, raw) && disk.record == old(disk).record
      ensures !ok ==> disk == old(disk)
    {
      var staged := Read(PendingName);
      var published := Read(RecordName);
      if fault == AtReadback || !staged.Found? || !published.Found? || staged != published
         || staged.content != raw || published.node.links != 2 {
        return false;
      }
      if fault == BeforeUnlink {
        return false;
      }
      Issue(raw, Unlink);
      return true;
    }

    /** The part of an admitted publication that changes the directory. */
    method Finish(raw: Payload, record: Reading, pending: Reading, ino: nat, fault: Checkpoint)
      returns (ok: bool)
      requires Valid() && Sound(g, disk, log) && ino !in disk.inodes && Accepts(g, disk, raw, true)
      requires record == Observed(g, disk, RecordName) && pending == Observed(g, disk, PendingName)
      modifies this
      ensures Valid() && Extends(old(log), log, raw)
      ensures fault.Nowhere? ==> ok
      ensures ok ==> disk.Done(g, raw)
      ensures record.Found? && pending.Missing? ==> log == old(log)
      ensures fault == BeforeLink ==> disk.record == old(disk).record
    {
      OneInode(g, disk, log);
      if record.Missing? {
        var installed := Install(raw, pending, ino, fault);
        if !installed {
          return false;
        }
        AlwaysSound(g, log);
      }
      if record.Missing? || pending.Found? {
        var retired := Retire(raw, fault);
        if !retired {
          return false;
        }
      }
      ok := Confirm(raw, fault);
    }

    /** The readback that ends a publication. */
    method Confirm(raw: Payload, fault: Checkpoint) returns (ok: bool)
      requires Valid() && disk.Done(g, raw)
      ensures ok <==> fault != AtExit
    {
      AlwaysSound(g, log);
      var final := Read(RecordName);
      ok := fault != AtExit && final.Found? && final.content == raw && final.node.links == 1;
    }

    method Publish(raw: Payload, recover: bool, plan: bool, ino: nat, fault: Checkpoint)
      returns (r: Outcome)
      requires Valid() && ino !in disk.inodes
      modifies this
      // every state on the way is a legal state of this caller, whatever fails
      ensures Valid() && Extends(old(log), log, raw)
      // a publication goes through exactly in the accepting states
      ensures fault.Nowhere? ==> (r != Failed <==> Accepts(g, old(disk), raw, recover))
      ensures !Accepts(g, old(disk), raw, recover) ==> r == Failed && log == old(log)
      // and then leaves the complete record alone in the directory
      ensures r != Failed && !plan ==> disk.Done(g, raw)
      ensures plan || r == Unchanged ==> log == old(log)
      ensures r == Failed && fault.Nowhere? ==> log == old(log)
      // an interrupted publication is completed only on request, and only for the bytes it was made of
      ensures old(disk).pending.Some? && !recover ==> r == Failed && log == old(log)
      ensures old(disk).pending.Some? && !(Pending(old(disk)) <= raw) ==> r == Failed && log == old(log)
      // a record of other bytes is never replaced
      ensures Recorded(old(disk)).Some? && Recorded(old(disk)) != Some(raw) ==> r == Failed && log == old(log)
      // the report says what was found
      ensures r == Planned ==> plan
      ensures r == Published ==> !plan && old(disk) == EMPTY
      ensures r == Recovered ==> !plan && recover && old(disk).pending.Some?
      ensures r == Unchanged ==> !plan && old(disk).pending.None? && Recorded(old(disk)) == Some(raw)
      // and without a fault nothing else stands in the way of a directory that is empty or already right
      ensures fault.Nowhere? && old(disk) == EMPTY ==> r == if plan then Planned else Published
      ensures fault.Nowhere? && old(disk).pending.None? && Recorded(old(disk)) == Some(raw) ==>
                r == if plan then Planned else Unchanged
      ensures fault.Nowhere? && old(disk).pending.Some? && recover && Recorded(old(disk)) == Some(raw) ==>
                r == if plan then Planned else Recovered
      ensures fault in {AtEntry, BeforeLink} ==> disk.record == old(disk).record
    {
      AlwaysSound(g, log);
      if fault == AtEntry {
        return Failed;
      }
      var record := Read(RecordName);
      var pending := Read(PendingName);
      var admitted := Admit(raw, recover, record, pending);
      if !admitted {
        return Failed;
      }
      if plan {
        return Planned;
      }
      var ok := Finish(raw, record, pending, ino, fault);
      if !ok {
        return Failed;
      }
      return if pending.Found? then Recovered else if record.Missing? then Published else Unchanged;
    }

    /**
     After any interruption of publications of `raw` that did not strand it, one
     recovery publishes the record and a second call changes nothing.
     */
    method RecoverTwice(raw: Payload, ino: nat)
      returns (first: Outcome, second: Outcome, ghost between: Log)
      requires Valid() && ino !in disk.inodes
      requires forall k :: 0 <= k < |log| ==> log[k].raw == raw
      requires !Stranded(g, disk)
      modifies this
      ensures Valid() && disk.Done(g, raw)
      ensures first == if old(disk).pending.Some? then Recovered
                       else if old(disk).record.Some? then Unchanged else Published
      ensures second == Unchanged
      ensures Extends(old(log), between, raw) && log == between
    {
      RecoveryAcceptedExactly(g, log, raw);
      first := Publish(raw, true, false, ino, Nowhere);
      between := log;
      second := Publish(raw, true, false, disk.record.value + 1, Nowhere);
      assert second == Unchanged;
    }
  }
}
