/**
 Searching a byte stream for patterns chunk by chunk, carrying over only the
 tail in which an occurrence may still be completed.  The canary scanner and the
 wheel scanner cut their tails in different ways.
 */
module Scan {
  import opened Common

  const MAX_TOTAL_BYTES := 2 * 1024 * 1024 * 1024
  const MAX_MEMBER_BYTES := 256 * 1024 * 1024

  predicate OccursAt(p: bytes, s: bytes, i: nat) {
    i + |p| <= |s| && s[i..i + |p|] == p
  }

  ghost predicate Occurs(p: bytes, s: bytes) {
    exists i: nat :: OccursAt(p, s, i)
  }

  ghost predicate Hit(patterns: seq<bytes>, s: bytes) {
    exists p :: p in patterns && Occurs(p, s)
  }

  /** The whole stream. */
  function Join(chunks: seq<bytes>): bytes {
    if chunks == [] then [] else Join(chunks[..|chunks| - 1]) + chunks[|chunks| - 1]
  }

  function Longest(patterns: seq<bytes>): (n: nat)
    ensures forall p :: p in patterns ==> |p| <= n
    ensures n > 0 ==> exists p :: p in patterns && |p| == n
  {
    if patterns == [] then 0
    else
      var rest := Longest(patterns[1..]);
      assert patterns == [patterns[0]] + patterns[1..];
      if |patterns[0]| > rest then |patterns[0]| else rest
  }

  /** `s[-n:]`: everything when n is zero or exceeds the length. */
  function LastBytes(s: bytes, n: nat): bytes {
    if n == 0 || n >= |s| then s else s[|s| - n..]
  }

  /** Python's `p in s` on bytes. */
  method Contains(s: bytes, p: bytes) returns (found: bool)
    ensures found <==> Occurs(p, s)
  {
    var i := 0;
    while i + |p| <= |s|
      invariant forall j: nat :: OccursAt(p, s, j) ==> i <= j
    {
      if s[i..i + |p|] == p {
        assert OccursAt(p, s, i);
        return true;
      }
      i := i + 1;
    }
    return false;
  }

  method AnyContained(s: bytes, patterns: seq<bytes>) returns (found: bool)
    ensures found <==> Hit(patterns, s)
  {
    for k := 0 to |patterns|
      invariant forall j :: 0 <= j < k ==> !Occurs(patterns[j], s)
    {
      found := Contains(s, patterns[k]);
      if found {
        return;
      }
    }
    return false;
  }

  /** `tail` is the end of `seen`: all of it, or at least one byte less than the longest pattern. */
  predicate Carries(tail: bytes, seen: bytes, longest: nat) {
    && |tail| <= |seen| && seen[|seen| - |tail|..] == tail
    && (tail == seen || |tail| + 1 >= longest)
  }

  /** An occurrence in the tail and the next chunk is one in the stream. */
  lemma SuffixOccurs(p: bytes, s: bytes, t: bytes, i: nat)
    requires |t| <= |s| && s[|s| - |t|..] == t && OccursAt(p, t, i)
    ensures OccursAt(p, s, |s| - |t| + i)
  {
    var d := |s| - |t|;
    assert s[d + i..d + i + |p|] == s[d..][i..i + |p|];
  }

  lemma OccursEarlier(p: bytes, seen: bytes, chunk: bytes, i: nat)
    requires OccursAt(p, seen + chunk, i)
    ensures i + |p| <= |seen| ==> OccursAt(p, seen, i)
  {
    if i + |p| <= |seen| {
      assert seen[i..i + |p|] == (seen + chunk)[i..i + |p|];
    }
  }

  /** A new occurrence ends in the next chunk, so it starts in the tail or later. */
  lemma NewOccurrence(p: bytes, seen: bytes, tail: bytes, chunk: bytes, longest: nat, i: nat)
    requires Carries(tail, seen, longest) && 0 < |p| <= longest
    requires OccursAt(p, seen + chunk, i) && !Occurs(p, seen)
    ensures Occurs(p, tail + chunk)
  {
    var s, t, d := seen + chunk, tail + chunk, |seen| - |tail|;
    OccursEarlier(p, seen, chunk, i);
    assert s[d..] == t;
    assert t[i - d..i - d + |p|] == s[i..i + |p|];
    assert OccursAt(p, t, i - d);
  }

  /** Looking at the tail and the next chunk finds what the longer stream adds. */
  lemma TailSuffices(patterns: seq<bytes>, seen: bytes, tail: bytes, chunk: bytes, longest: nat)
    requires forall p :: p in patterns ==> 0 < |p| <= longest
    requires Carries(tail, seen, longest) && !Hit(patterns, seen)
    ensures Hit(patterns, tail + chunk) <==> Hit(patterns, seen + chunk)
  {
    if Hit(patterns, tail + chunk) {
      var p :| p in patterns && Occurs(p, tail + chunk);
      var i: nat :| OccursAt(p, tail + chunk, i);
      assert (seen + chunk)[|seen| - |tail|..] == tail + chunk;
      SuffixOccurs(p, seen + chunk, tail + chunk, i);
    }
    if Hit(patterns, seen + chunk) {
      var p :| p in patterns && Occurs(p, seen + chunk);
      var i: nat :| OccursAt(p, seen + chunk, i);
      NewOccurrence(p, seen, tail, chunk, longest, i);
    }
  }

  lemma Longer(patterns: seq<bytes>, seen: bytes, more: bytes)
    requires Hit(patterns, seen)
    ensures Hit(patterns, seen + more)
  {
    var p :| p in patterns && Occurs(p, seen);
    var i: nat :| OccursAt(p, seen, i);
    assert (seen + more)[i..i + |p|] == seen[i..i + |p|];
    assert OccursAt(p, seen + more, i);
  }

  /** Cutting the tail and the chunk down to `n` bytes keeps enough. */
  lemma CutCarries(tail: bytes, seen: bytes, chunk: bytes, cut: bytes, longest: nat)
    requires Carries(tail, seen, longest)
    requires |cut| <= |tail + chunk| && (tail + chunk)[|tail + chunk| - |cut|..] == cut
    requires cut == tail + chunk || |cut| + 1 >= longest
    ensures Carries(cut, seen + chunk, longest)
  {
    var all := seen + chunk;
    assert all[|seen| - |tail|..] == tail + chunk;
    assert all[|all| - |cut|..] == (tail + chunk)[|tail + chunk| - |cut|..];
  }

  lemma {:induction false} JoinPrefix(chunks: seq<bytes>, k: nat)
    requires k <= |chunks|
    ensures Join(chunks) == Join(chunks[..k]) + Join(chunks[k..])
    decreases |chunks| - k
  {
    if k == |chunks| {
      assert chunks[..k] == chunks;
    } else {
      JoinPrefix(chunks, k + 1);
      assert chunks[..k + 1][..k] == chunks[..k];
      JoinCons(chunks[k..]);
      assert chunks[k..][1..] == chunks[k + 1..];
      assert Join(chunks[..k]) + chunks[k] + Join(chunks[k + 1..])
          == Join(chunks[..k]) + (chunks[k] + Join(chunks[k + 1..]));
    }
  }

  lemma {:induction false} JoinCons(chunks: seq<bytes>)
    requires chunks != []
    ensures Join(chunks) == chunks[0] + Join(chunks[1..])
  {
    if |chunks| > 1 {
      var before, last := chunks[..|chunks| - 1], chunks[|chunks| - 1];
      JoinCons(before);
      assert before[1..] == chunks[1..][..|chunks| - 2];
      assert chunks[0] + Join(before[1..]) + last == chunks[0] + (Join(before[1..]) + last);
    }
  }

  lemma JoinSnoc(chunks: seq<bytes>, k: nat)
    requires k < |chunks|
    ensures Join(chunks[..k + 1]) == Join(chunks[..k]) + chunks[k]
  {
    assert chunks[..k + 1][..k] == chunks[..k];
  }

  lemma HitStays(chunks: seq<bytes>, k: nat, patterns: seq<bytes>)
    requires k <= |chunks| && Hit(patterns, Join(chunks[..k]))
    ensures Hit(patterns, Join(chunks))
  {
    Longer(patterns, Join(chunks[..k]), Join(chunks[k..]));
    JoinPrefix(chunks, k);
  }

  /** What one more chunk shows about the whole stream. */
  lemma ChunkDecides(chunks: seq<bytes>, k: nat, patterns: seq<bytes>, tail: bytes, longest: nat)
    requires k < |chunks| && forall p :: p in patterns ==> 0 < |p| <= longest
    requires Carries(tail, Join(chunks[..k]), longest) && !Hit(patterns, Join(chunks[..k]))
    ensures Join(chunks[..k + 1]) == Join(chunks[..k]) + chunks[k]
    ensures Hit(patterns, tail + chunks[k]) <==> Hit(patterns, Join(chunks[..k + 1]))
    ensures Hit(patterns, tail + chunks[k]) ==> Hit(patterns, Join(chunks))
  {
    JoinSnoc(chunks, k);
    TailSuffices(patterns, Join(chunks[..k]), tail, chunks[k], longest);
    if Hit(patterns, tail + chunks[k]) {
      HitStays(chunks, k + 1, patterns);
    }
  }

  /** The tail of the canary scanner: when the longest pattern is one byte it keeps everything. */
  function CanaryTail(combined: bytes, longest: nat): bytes
    requires longest > 0
  {
    LastBytes(combined, longest - 1)
  }

  /** The tail of the wheel scanner: when the longest pattern is one byte it keeps nothing. */
  function WheelTail(scan: bytes, longest: nat): bytes
    requires longest > 0
  {
    var retained := longest - 1;
    if retained > 0 then LastBytes(scan, retained) else []
  }

  lemma LastBytesCut(s: bytes, n: nat)
    ensures var cut := LastBytes(s, n);
            |cut| <= |s| && s[|s| - |cut|..] == cut && (cut == s || |cut| == n)
  {
  }

  lemma CanaryTailCarries(tail: bytes, seen: bytes, chunk: bytes, longest: nat)
    requires longest > 0 && Carries(tail, seen, longest)
    ensures Carries(CanaryTail(tail + chunk, longest), seen + chunk, longest)
  {
    LastBytesCut(tail + chunk, longest - 1);
    CutCarries(tail, seen, chunk, CanaryTail(tail + chunk, longest), longest);
  }

  lemma BothTailsCarry(tail: bytes, seen: bytes, chunk: bytes, longest: nat)
    requires longest > 0 && Carries(tail, seen, longest)
    ensures Carries(CanaryTail(tail + chunk, longest), seen + chunk, longest)
    ensures Carries(WheelTail(tail + chunk, longest), seen + chunk, longest)
  {
    CanaryTailCarries(tail, seen, chunk, longest);
    if longest == 1 {
      CutCarries(tail, seen, chunk, [], longest);
    }
  }

  class Budget {
    var total: int
    var members: int

    constructor ()
      ensures total == 0 && members == 0
    {
      total, members := 0, 0;
    }

    method Consume(amount: int) returns (ok: bool)
      modifies this`total
      ensures ok <==> 0 <= amount <= MAX_MEMBER_BYTES && total <= MAX_TOTAL_BYTES
      ensures total == if 0 <= amount <= MAX_MEMBER_BYTES then old(total) + amount else old(total)
    {
      if amount < 0 || amount > MAX_MEMBER_BYTES {
        return false;
      }
      total := total + amount;
      return total <= MAX_TOTAL_BYTES;
    }
  }

  datatype Verdict = Found | Clean | OverBudget

  /** Chunk `k` is too large, or takes the total over the limit. */
  predicate Uncovered(chunks: seq<bytes>, k: nat, start: int) {
    && k < |chunks|
    && (|chunks[k]| > 256 * 1024 * 1024 || start + |Join(chunks[..k + 1])| > 2 * 1024 * 1024 * 1024)
  }

  /** A pattern is complete with chunk `k` and not before. */
  ghost predicate FoundAt(chunks: seq<bytes>, k: nat, patterns: seq<bytes>) {
    k < |chunks| && Hit(patterns, Join(chunks[..k + 1])) && !Hit(patterns, Join(chunks[..k]))
  }

  /** The total grew by what was read up to the chunk that completed a pattern. */
  ghost predicate ChargedTo(chunks: seq<bytes>, k: nat, patterns: seq<bytes>, start: int, total: int) {
    FoundAt(chunks, k, patterns) && total == start + |Join(chunks[..k + 1])|
  }

  /** The budget does not cover chunk `k`, before which no pattern was complete. */
  ghost predicate StoppedAt(chunks: seq<bytes>, k: nat, start: int, patterns: seq<bytes>) {
    Uncovered(chunks, k, start) && !Hit(patterns, Join(chunks[..k]))
  }

  ghost predicate Covered(chunks: seq<bytes>, n: nat, start: int) {
    forall i: nat :: i < n ==> !Uncovered(chunks, i, start)
  }

  /** After a find there is no place to stop at. */
  lemma FoundNotStopped(chunks: seq<bytes>, k: nat, start: int, patterns: seq<bytes>)
    requires FoundAt(chunks, k, patterns) && Covered(chunks, k + 1, start)
    ensures forall i: nat :: !StoppedAt(chunks, i, start, patterns)
  {
    forall i: nat
      ensures !StoppedAt(chunks, i, start, patterns)
    {
      if k < i < |chunks| {
        assert chunks[..i][..k + 1] == chunks[..k + 1];
        HitStays(chunks[..i], k + 1, patterns);
      }
    }
  }

  /** One turn of the canary scanner. */
  method ScanChunk(chunks: seq<bytes>, k: nat, forms: seq<bytes>, longest: nat, tail: bytes, budget: Budget,
                   ghost start: int)
    returns (r: Option<Verdict>, next: bytes)
    requires k < |chunks| && longest > 0 && forall p :: p in forms ==> 0 < |p| <= longest
    requires Carries(tail, Join(chunks[..k]), longest) && !Hit(forms, Join(chunks[..k]))
    requires budget.total == start + |Join(chunks[..k])|
    modifies budget`total
    ensures r in {None, Some(Found), Some(OverBudget)}
    ensures r == Some(OverBudget) <==> Uncovered(chunks, k, start)
    ensures r != Some(OverBudget) ==> budget.total == start + |Join(chunks[..k + 1])| <= MAX_TOTAL_BYTES
    ensures r == Some(Found) ==> FoundAt(chunks, k, forms)
    ensures r.None? ==> Carries(next, Join(chunks[..k + 1]), longest) && !Hit(forms, Join(chunks[..k + 1]))
  {
    var chunk := chunks[k];
    ChunkDecides(chunks, k, forms, tail, longest);
    var affordable := budget.Consume(|chunk|);
    if !affordable {
      return Some(OverBudget), [];
    }
    var combined := tail + chunk;
    var found := AnyContained(combined, forms);
    if found {
      return Some(Found), [];
    }
    CanaryTailCarries(tail, Join(chunks[..k]), chunk, longest);
    return None, CanaryTail(combined, longest);
  }

  /** The canary scanner, which also charges every chunk to a budget. */
  method ContainsStream(chunks: seq<bytes>, forms: seq<bytes>, budget: Budget) returns (r: Verdict)
    requires forall c :: c in chunks ==> c != []
    requires forms != [] && forall p :: p in forms ==> p != []
    modifies budget`total
    ensures r != OverBudget ==> (r == Found <==> Hit(forms, Join(chunks)))
    ensures r != OverBudget && old(budget.total) <= MAX_TOTAL_BYTES ==> budget.total <= MAX_TOTAL_BYTES
    // the budget stops the scan exactly at a chunk that it does not cover and before which nothing was found
    ensures r == OverBudget <==> exists k: nat :: StoppedAt(chunks, k, old(budget.total), forms)
    // and is charged exactly what was read
    ensures r == Clean ==> budget.total == old(budget.total) + |Join(chunks)|
    ensures r == Found ==> exists k: nat :: ChargedTo(chunks, k, forms, old(budget.total), budget.total)
  {
    var longest := Longest(forms);
    assert forms[0] in forms;
    var tail: bytes := [];
    for k := 0 to |chunks|
      invariant Carries(tail, Join(chunks[..k]), longest)
      invariant !Hit(forms, Join(chunks[..k]))
      invariant budget.total == old(budget.total) + |Join(chunks[..k])|
      invariant Covered(chunks, k, old(budget.total))
      invariant old(budget.total) <= MAX_TOTAL_BYTES ==> budget.total <= MAX_TOTAL_BYTES
    {
      var verdict, next := ScanChunk(chunks, k, forms, longest, tail, budget, old(budget.total));
      if verdict == Some(OverBudget) {
        assert StoppedAt(chunks, k, old(budget.total), forms);
        return OverBudget;
      }
      if verdict == Some(Found) {
        FoundNotStopped(chunks, k, old(budget.total), forms);
        assert ChargedTo(chunks, k, forms, old(budget.total), budget.total);
        HitStays(chunks, k + 1, forms);
        return Found;
      }
      tail := next;
    }
    assert chunks[..|chunks|] == chunks;
    return Clean;
  }

  /** The scan of one wheel member. */
  method ScanMember(chunks: seq<bytes>, canaries: seq<bytes>) returns (found: bool)
    requires forall c :: c in chunks ==> c != []
    requires forall p :: p in canaries ==> p != []
    ensures found <==> Hit(canaries, Join(chunks))
  {
    var longest := if canaries == [] then 1 else Longest(canaries);
    assert canaries != [] ==> canaries[0] in canaries;
    var tail: bytes := [];
    for k := 0 to |chunks|
      invariant Carries(tail, Join(chunks[..k]), longest)
      invariant !Hit(canaries, Join(chunks[..k]))
    {
      var chunk := chunks[k];
      var scan := tail + chunk;
      ChunkDecides(chunks, k, canaries, tail, longest);
      found := AnyContained(scan, canaries);
      if found {
        return;
      }
      BothTailsCarry(tail, Join(chunks[..k]), chunk, longest);
      tail := WheelTail(scan, longest);
    }
    assert chunks[..|chunks|] == chunks;
    return false;
  }

  /** Within budget the two scanners agree, however differently the stream is cut for them. */
  method ScannersAgree(chunks: seq<bytes>, others: seq<bytes>, forms: seq<bytes>, budget: Budget)
    returns (canary: Verdict, wheel: bool)
    requires forall c :: c in chunks ==> c != []
    requires forall c :: c in others ==> c != []
    requires Join(chunks) == Join(others)
    requires forms != [] && forall p :: p in forms ==> p != []
    modifies budget`total
    ensures canary != OverBudget ==> (canary == Found <==> wheel)
    ensures wheel <==> Hit(forms, Join(chunks))
  {
    canary := ContainsStream(chunks, forms, budget);
    wheel := ScanMember(others, forms);
  }
}
