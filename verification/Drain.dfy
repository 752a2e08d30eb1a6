/**
 Two threads drain the output streams of a child process into two files under a
 common cap.  Reading happens outside the lock, the rest of an iteration inside
 it, so every execution is an interleaving of `Read` and `Commit` steps.  A write
 that fails ends its thread with a `Fail` step: the bytes are counted, the file
 keeps less than it was handed, and the cap is not looked at.
 */
module Drain {
  import opened Common

  const CHUNK: nat := 64 * 1024
  const MAX_LOG_BYTES: nat := 4 * 1024 * 1024

  datatype Lane = Stdout | Stderr

  /** `kept`: how much the file keeps of all it was ever handed, at least one byte being lost. */
  datatype Event = Read(lane: Lane, chunk: bytes) | Commit(lane: Lane) | Fail(lane: Lane, kept: nat)

  /**
   One thread: the bytes it has committed so far, the chunk it has read but not
   yet committed, what is in its file, and whether a write has failed.
   */
  datatype Thread = Thread(committed: bytes, held: bytes, file: bytes, failed: bool) {
    function Received(): bytes {
      committed + held
    }

    predicate Lossless() {
      file == committed
    }
  }

  const FRESH := Thread([], [], [], false)

  class Capture {
    var total: int
    var exceeded: bool
    var stops: nat
    var stdout: Thread
    var stderr: Thread

    /** While there is room, a file without a failed write has everything; with one it lacks something. */
    predicate Sound(t: Thread)
      reads this
    {
      && t.file <= t.committed
      && (t.failed ==> !t.Lossless())
      && (!t.failed && total <= MAX_LOG_BYTES ==> t.Lossless())
    }

    predicate Valid()
      reads this
    {
      && Sound(stdout) && Sound(stderr)
      && total == |stdout.committed| + |stderr.committed|
      && |stdout.file| + |stderr.file| <= Min(total, MAX_LOG_BYTES)
      && (!stdout.failed && !stderr.failed ==>
            && |stdout.file| + |stderr.file| == Min(total, MAX_LOG_BYTES)
            && (total > MAX_LOG_BYTES ==> exceeded))
      && (exceeded ==> total > MAX_LOG_BYTES)
      && stops == if exceeded then 1 else 0
    }

    function Of(lane: Lane): Thread
      reads this
    {
      if lane.Stdout? then stdout else stderr
    }

    constructor ()
      ensures Valid() && stdout == stderr == FRESH && !exceeded
    {
      total, exceeded, stops := 0, false, 0;
      stdout, stderr := FRESH, FRESH;
    }

    method Put(lane: Lane, t: Thread)
      modifies this`stdout, this`stderr
      ensures stdout == if lane.Stdout? then t else old(stdout)
      ensures stderr == if lane.Stderr? then t else old(stderr)
    {
      if lane.Stdout? {
        stdout := t;
      } else {
        stderr := t;
      }
    }

    /** source.read(), outside the lock. */
    method Receive(lane: Lane, chunk: bytes)
      requires Valid() && Of(lane).held == []
      modifies this`stdout, this`stderr
      ensures Valid()
      ensures stdout == if lane.Stdout? then old(stdout).(held := chunk) else old(stdout)
      ensures stderr == if lane.Stderr? then old(stderr).(held := chunk) else old(stderr)
    {
      Put(lane, Of(lane).(held := chunk));
    }

    /** What is in the file after the write of a chunk into the remaining room. */
    method Write(t: Thread, remaining: int) returns (file: bytes)
      requires t.file <= t.committed && (remaining >= 0 ==> t.Lossless())
      ensures file <= t.Received() && |file| == |t.file| + Max(0, Min(remaining, |t.held|))
      ensures |t.held| <= remaining ==> file == t.Received()
    {
      file := t.file;
      if remaining > 0 {
        file := file + t.held[..Min(remaining, |t.held|)];
        AppendFits(t.committed, t.held, remaining);
      } else {
        assert file <= t.committed + t.held;
        assert |t.held| <= remaining ==> t.held == [];
      }
    }

    /** The critical section: what still fits under the cap is written, everything is counted. */
    method Store(lane: Lane)
      requires Valid() && !Of(lane).failed
      modifies this
      ensures Valid()
      ensures Moved(old(stdout), stdout, Commit(lane), Stdout) && Moved(old(stderr), stderr, Commit(lane), Stderr)
      ensures exceeded <==> old(exceeded) || total > MAX_LOG_BYTES
    {
      var t := Of(lane);
      var remaining := MAX_LOG_BYTES - total;
      total := total + |t.held|;
      var file := Write(t, remaining);
      Put(lane, t.(committed := t.committed + t.held, held := [], file := file));
      if total > MAX_LOG_BYTES && !exceeded {
        exceeded := true;
        stops := stops + 1;
      }
    }

    /** The same critical section, left by an exception of the write. */
    method StoreFails(lane: Lane, kept: nat)
      requires Valid() && !Of(lane).failed && Of(lane).held != [] && total < MAX_LOG_BYTES
      modifies this
      ensures Valid()
      ensures Moved(old(stdout), stdout, Fail(lane, kept), Stdout)
      ensures Moved(old(stderr), stderr, Fail(lane, kept), Stderr)
      ensures exceeded == old(exceeded)
    {
      var t := Of(lane);
      var remaining := MAX_LOG_BYTES - total;
      total := total + |t.held|;
      var handed := t.file + t.held[..Min(remaining, |t.held|)];
      var file := handed[..Min(kept, |handed| - 1)];
      AppendFits(t.committed, t.held, remaining);
      Put(lane, Thread(t.committed + t.held, [], file, true));
    }

    /** The files hold everything committed exactly when the cap was not passed and no write failed. */
    lemma LosslessExactly()
      requires Valid()
      ensures stdout.Lossless() && stderr.Lossless() <==>
              total <= MAX_LOG_BYTES && !stdout.failed && !stderr.failed
    {
    }
  }

  lemma AppendFits(file: bytes, chunk: bytes, room: nat)
    ensures file + chunk[..Min(room, |chunk|)] <= file + chunk
    ensures file + chunk[..Min(room, |chunk|)] == file + chunk <==> |chunk| <= room
  {
  }

  // ------------------------------------------------------------------ schedules

  /** All bytes that a schedule reads from one stream. */
  function Stream(schedule: seq<Event>, lane: Lane): bytes {
    if schedule == [] then []
    else
      var last := schedule[|schedule| - 1];
      Stream(schedule[..|schedule| - 1], lane)
      + if last.Read? && last.lane == lane then last.chunk else []
  }

  /** The chunk that `lane` has read last and not committed yet. */
  function Held(schedule: seq<Event>, lane: Lane): bytes {
    if schedule == [] then []
    else
      var last := schedule[|schedule| - 1];
      if last.lane != lane then Held(schedule[..|schedule| - 1], lane)
      else if last.Read? then last.chunk else []
  }

  /** Bytes counted so far: read, and no longer held. */
  function Counted(schedule: seq<Event>): int {
    |Stream(schedule, Stdout)| - |Held(schedule, Stdout)| + |Stream(schedule, Stderr)| - |Held(schedule, Stderr)|
  }

  /** A write of `lane` has failed. */
  predicate Failed(schedule: seq<Event>, lane: Lane) {
    schedule != [] &&
    var last := schedule[|schedule| - 1];
    Failed(schedule[..|schedule| - 1], lane) || (last.Fail? && last.lane == lane)
  }

  /** Some commit went through with more than the cap counted. */
  predicate Passed(schedule: seq<Event>) {
    schedule != [] &&
    (Passed(schedule[..|schedule| - 1])
     || (schedule[|schedule| - 1].Commit? && Counted(schedule) > MAX_LOG_BYTES))
  }

  /**
   Each thread commits a chunk before it reads the next one, does nothing after a
   failed write, and only writes while there is room.
   */
  predicate Interleaving(schedule: seq<Event>) {
    schedule != [] ==>
      var before, last := schedule[..|schedule| - 1], schedule[|schedule| - 1];
      && Interleaving(before) && !Failed(before, last.lane)
      && match last
         case Read(lane, chunk) => Held(before, lane) == [] && 0 < |chunk| <= CHUNK
         case Commit(lane) => Held(before, lane) != []
         case Fail(lane, _) => Held(before, lane) != [] && Counted(before) < MAX_LOG_BYTES
  }

  lemma {:induction false} InterleavingPrefix(schedule: seq<Event>, k: nat)
    requires Interleaving(schedule) && k <= |schedule|
    ensures Interleaving(schedule[..k])
  {
    if k < |schedule| {
      InterleavingPrefix(schedule[..|schedule| - 1], k);
      assert schedule[..|schedule| - 1][..k] == schedule[..k];
    } else {
      assert schedule[..k] == schedule;
    }
  }

  /** What the capture shows of a lane after a schedule. */
  predicate Shows(t: Thread, schedule: seq<Event>, lane: Lane) {
    && t.Received() == Stream(schedule, lane) && t.held == Held(schedule, lane)
    && t.failed == Failed(schedule, lane)
  }

  /** How one event changes what a lane has received, holds and has failed. */
  lemma StreamStep(schedule: seq<Event>, k: nat, lane: Lane)
    requires k < |schedule|
    ensures var before, after, e := schedule[..k], schedule[..k + 1], schedule[k];
            && Stream(after, lane) == Stream(before, lane) + (if e.Read? && e.lane == lane then e.chunk else [])
            && Held(after, lane) == (if e.lane != lane then Held(before, lane) else if e.Read? then e.chunk else [])
            && Failed(after, lane) == (Failed(before, lane) || (e.Fail? && e.lane == lane))
  {
    assert schedule[..k + 1][..k] == schedule[..k];
  }

  /** The part of `lane` in event `e`. */
  predicate Moved(t: Thread, t': Thread, e: Event, lane: Lane) {
    if e.lane != lane then t' == t
    else if e.Read? then t.held == [] && t' == t.(held := e.chunk)
    else t'.Received() == t.Received() && t'.held == [] && t'.failed == (t.failed || e.Fail?)
  }

  lemma ShowsStep(t: Thread, t': Thread, schedule: seq<Event>, k: nat, lane: Lane)
    requires k < |schedule| && Shows(t, schedule[..k], lane) && Moved(t, t', schedule[k], lane)
    ensures Shows(t', schedule[..k + 1], lane)
  {
    StreamStep(schedule, k, lane);
    assert t.committed + [] == t.committed;
  }

  lemma ScheduleStep(schedule: seq<Event>, k: nat)
    requires Interleaving(schedule) && k < |schedule|
    ensures var before, e := schedule[..k], schedule[k];
            && !Failed(before, e.lane)
            && (e.Read? <==> Held(before, e.lane) == [])
            && (e.Fail? ==> Counted(before) < MAX_LOG_BYTES)
            && Passed(schedule[..k + 1])
               == (Passed(before) || (e.Commit? && Counted(schedule[..k + 1]) > MAX_LOG_BYTES))
  {
    InterleavingPrefix(schedule, k + 1);
    assert schedule[..k + 1][..k] == schedule[..k];
  }

  lemma ShownTotal(out: Thread, err: Thread, schedule: seq<Event>)
    requires Shows(out, schedule, Stdout) && Shows(err, schedule, Stderr)
    ensures Counted(schedule) == |out.committed| + |err.committed|
    ensures out.Lossless() <==> Stream(schedule, Stdout) == out.file + Held(schedule, Stdout)
    ensures err.Lossless() <==> Stream(schedule, Stderr) == err.file + Held(schedule, Stderr)
  {
    SameSuffix(out.file, out.committed, out.held);
    SameSuffix(err.file, err.committed, err.held);
  }

  lemma SameSuffix(a: bytes, b: bytes, x: bytes)
    ensures a + x == b + x <==> a == b
  {
    if a + x == b + x {
      assert |a| == |b|;
      assert a == (a + x)[..|a|] && b == (b + x)[..|b|];
    }
  }

  /** One event, performed by its thread. */
  method Perform(c: Capture, e: Event)
    requires c.Valid() && !c.Of(e.lane).failed && (e.Read? <==> c.Of(e.lane).held == [])
    requires e.Fail? ==> c.total < MAX_LOG_BYTES
    modifies c
    ensures c.Valid()
    ensures Moved(old(c.stdout), c.stdout, e, Stdout) && Moved(old(c.stderr), c.stderr, e, Stderr)
    ensures c.exceeded <==> old(c.exceeded) || (e.Commit? && c.total > MAX_LOG_BYTES)
  {
    match e
    case Read(lane, chunk) => c.Receive(lane, chunk);
    case Commit(lane) => c.Store(lane);
    case Fail(lane, kept) => c.StoreFails(lane, kept);
  }

  ghost predicate Tracks(c: Capture, schedule: seq<Event>)
    reads c
  {
    && Shows(c.stdout, schedule, Stdout) && Shows(c.stderr, schedule, Stderr)
    && (c.exceeded <==> Passed(schedule))
  }

  /** The next event of a schedule. */
  method Advance(c: Capture, e: Event, ghost schedule: seq<Event>, ghost k: nat)
    requires Interleaving(schedule) && k < |schedule| && e == schedule[k]
    requires c.Valid() && Tracks(c, schedule[..k])
    modifies c
    ensures c.Valid() && Tracks(c, schedule[..k + 1])
  {
    ScheduleStep(schedule, k);
    ShownTotal(c.stdout, c.stderr, schedule[..k]);
    Perform(c, e);
    ShowsStep(old(c.stdout), c.stdout, schedule, k, Stdout);
    ShowsStep(old(c.stderr), c.stderr, schedule, k, Stderr);
    ShownTotal(c.stdout, c.stderr, schedule[..k + 1]);
  }

  /**
   Every interleaving of the two threads, with any writes failing: each file is a
   prefix of its own stream, together they never pass the cap, the cap is reported
   exactly when a commit passed it and stops the child once.  Nothing is lost
   exactly when no write failed and the cap was not passed.
   */
  method Drain(schedule: seq<Event>) returns (c: Capture)
    requires Interleaving(schedule)
    ensures fresh(c) && c.Valid()
    ensures c.stdout.file <= Stream(schedule, Stdout) && c.stderr.file <= Stream(schedule, Stderr)
    ensures c.total == Counted(schedule)
    ensures |c.stdout.file| + |c.stderr.file| <= Min(c.total, MAX_LOG_BYTES)
    ensures c.exceeded <==> Passed(schedule)
    ensures c.stops == if c.exceeded then 1 else 0
    ensures !Failed(schedule, Stdout) && !Failed(schedule, Stderr) ==>
              && |c.stdout.file| + |c.stderr.file| == Min(c.total, MAX_LOG_BYTES)
              && (c.exceeded <==> c.total > MAX_LOG_BYTES)
    ensures Stream(schedule, Stdout) == c.stdout.file + Held(schedule, Stdout)
            && Stream(schedule, Stderr) == c.stderr.file + Held(schedule, Stderr)
            <==> !c.exceeded && !Failed(schedule, Stdout) && !Failed(schedule, Stderr)
  {
    c := new Capture();
    for k := 0 to |schedule|
      invariant fresh(c) && c.Valid()
      invariant Tracks(c, schedule[..k])
    {
      Advance(c, schedule[k], schedule, k);
    }
    assert schedule[..|schedule|] == schedule;
    ShownTotal(c.stdout, c.stderr, schedule);
    c.LosslessExactly();
  }

  /** A failed write is not reported: the first byte of a stream is counted, lost and nothing is set. */
  lemma LostWithoutReport()
    ensures var schedule := [Read(Stdout, [1]), Fail(Stdout, 0)];
            && Interleaving(schedule) && Failed(schedule, Stdout) && !Passed(schedule)
            && Counted(schedule) == 1
  {
    var read, schedule := [Read(Stdout, [1])], [Read(Stdout, [1]), Fail(Stdout, 0)];
    assert read[..0] == [] && schedule[..1] == read;
    assert Stream(read, Stdout) == [1] && Stream(schedule, Stdout) == [1];
  }

  /** Nor is the cap, when the very write that passes it fails. */
  lemma PassedWithoutReport(schedule: seq<Event>, lane: Lane, kept: nat)
    requires Interleaving(schedule) && !Failed(schedule, lane) && !Passed(schedule)
    requires Counted(schedule) < MAX_LOG_BYTES < Counted(schedule) + |Held(schedule, lane)|
    ensures var later := schedule + [Fail(lane, kept)];
            Interleaving(later) && Counted(later) > MAX_LOG_BYTES && !Passed(later)
  {
    var later := schedule + [Fail(lane, kept)];
    assert later[..|schedule|] == schedule && later[..|schedule| + 1] == later;
    StreamStep(later, |schedule|, Stdout);
    StreamStep(later, |schedule|, Stderr);
  }
}
