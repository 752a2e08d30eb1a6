/**
 The head of the migration graph, as the build and the artifact check read it
 from the literals of the migration sources, and what its acceptance means.
 */
module Migrations {
  import opened Common
  import opened Sets

  /** The value of a module-level assignment in a migration source. */
  datatype Literal = Absent | NoneLiteral | Text(s: string) | Other

  datatype Source = Source(revision: Literal, down: Literal)

  predicate IdentifierChar(c: char) {
    'A' <= c <= 'Z' || 'a' <= c <= 'z' || '0' <= c <= '9' || c in "_.-"
  }

  predicate Identifier(s: string) {
    1 <= |s| <= 80 && forall k :: 0 <= k < |s| ==> IdentifierChar(s[k])
  }

  predicate Root(down: Literal) {
    down.Absent? || down.NoneLiteral?
  }

  predicate GoodRevision(f: Source) {
    f.revision.Text? && Identifier(f.revision.s)
  }

  function Revisions(fs: seq<Source>): set<string> {
    set f | f in fs && f.revision.Text? :: f.revision.s
  }

  function Predecessors(fs: seq<Source>): set<string> {
    set f | f in fs && f.down.Text? :: f.down.s
  }

  /** The single revision that no other names as its predecessor. */
  predicate HeadOf(fs: seq<Source>, h: string) {
    Predecessors(fs) <= Revisions(fs) && Revisions(fs) - Predecessors(fs) == {h}
  }

  predicate Distinct(fs: seq<Source>) {
    forall j, k :: 0 <= j < k < |fs| ==> fs[j].revision != fs[k].revision
  }

  predicate BuildReads(fs: seq<Source>) {
    && Distinct(fs)
    && forall f :: f in fs ==>
         GoodRevision(f) && (Root(f.down) || (f.down.Text? && Identifier(f.down.s)))
  }

  predicate ArtifactReads(fs: seq<Source>) {
    forall f :: f in fs ==> GoodRevision(f) && (Root(f.down) || f.down.Text?)
  }

  /** One to eighty characters: digits, ASCII letters, hyphen, dot and underscore, by their codes. */
  predicate Spelled(s: string) {
    && 1 <= |s| <= 80
    && forall c :: c in s ==>
         48 <= c as int <= 57 || 65 <= c as int <= 90 || 97 <= c as int <= 122 || c as int in {45, 46, 95}
  }

  lemma IdentifierExactly(s: string)
    ensures Identifier(s) <==> Spelled(s)
  {
    if Spelled(s) {
      forall k | 0 <= k < |s|
        ensures IdentifierChar(s[k])
      {
        assert s[k] in s;
        assert '-' in "_.-" && '.' in "_.-" && '_' in "_.-" by {
          assert "_.-"[0] == '_' && "_.-"[1] == '.' && "_.-"[2] == '-';
        }
      }
    }
  }

  /** The sources the build accepts, spelled out. */
  lemma BuildReadsExactly(fs: seq<Source>)
    ensures BuildReads(fs) <==>
            && (forall j, k :: 0 <= j < k < |fs| ==> fs[j].revision != fs[k].revision)
            && forall f :: f in fs ==>
                 && f.revision.Text? && Spelled(f.revision.s)
                 && match f.down
                    case Absent => true
                    case NoneLiteral => true
                    case Text(s) => Spelled(s)
                    case Other => false
  {
    forall f | f in fs
      ensures f.revision.Text? ==> (Identifier(f.revision.s) <==> Spelled(f.revision.s))
      ensures f.down.Text? ==> (Identifier(f.down.s) <==> Spelled(f.down.s))
    {
      if f.revision.Text? {
        IdentifierExactly(f.revision.s);
      }
      if f.down.Text? {
        IdentifierExactly(f.down.s);
      }
    }
  }

  /** And those the artifact reader accepts. */
  lemma ArtifactReadsExactly(fs: seq<Source>)
    ensures ArtifactReads(fs) <==>
            forall f :: f in fs ==> f.revision.Text? && Spelled(f.revision.s) && !f.down.Other?
  {
    forall f | f in fs
      ensures f.revision.Text? ==> (Identifier(f.revision.s) <==> Spelled(f.revision.s))
    {
      if f.revision.Text? {
        IdentifierExactly(f.revision.s);
      }
    }
  }

  method SingleHead(revisions: set<string>, predecessors: set<string>) returns (r: Option<string>)
    ensures r.Some? ==> predecessors <= revisions && revisions - predecessors == {r.value}
    ensures r.None? ==> !(predecessors <= revisions) || forall h :: revisions - predecessors != {h}
  {
    if revisions == {} || !(predecessors <= revisions) {
      return None;
    }
    var heads := revisions - predecessors;
    if |heads| != 1 {
      return None;
    }
    var h :| h in heads;
    assert |heads - {h}| == 0;
    assert heads == {h};
    return Some(h);
  }

  method BuildHead(fs: seq<Source>) returns (r: Option<string>)
    ensures r.Some? ==> BuildReads(fs) && HeadOf(fs, r.value)
    ensures r.None? ==> !BuildReads(fs) || forall h :: !HeadOf(fs, h)
  {
    var revisions: set<string>, predecessors: set<string> := {}, {};
    for k := 0 to |fs|
      invariant BuildReads(fs[..k])
      invariant revisions == Revisions(fs[..k]) && predecessors == Predecessors(fs[..k])
    {
      assert fs[..k + 1] == fs[..k] + [fs[k]];
      if !GoodRevision(fs[k]) {
        return None;
      }
      if fs[k].revision.s in revisions {
        return None;
      }
      revisions := revisions + {fs[k].revision.s};
      if !Root(fs[k].down) {
        if !fs[k].down.Text? || !Identifier(fs[k].down.s) {
          return None;
        }
        predecessors := predecessors + {fs[k].down.s};
      }
    }
    assert fs[..|fs|] == fs;
    r := SingleHead(revisions, predecessors);
  }

  method ArtifactHead(fs: seq<Source>) returns (r: Option<string>)
    ensures r.Some? ==> ArtifactReads(fs) && HeadOf(fs, r.value)
    ensures r.None? ==> !ArtifactReads(fs) || forall h :: !HeadOf(fs, h)
  {
    var revisions: set<string>, predecessors: set<string> := {}, {};
    for k := 0 to |fs|
      invariant ArtifactReads(fs[..k])
      invariant revisions == Revisions(fs[..k]) && predecessors == Predecessors(fs[..k])
    {
      assert fs[..k + 1] == fs[..k] + [fs[k]];
      if !GoodRevision(fs[k]) {
        return None;
      }
      revisions := revisions + {fs[k].revision.s};
      if !Root(fs[k].down) {
        if !fs[k].down.Text? {
          return None;
        }
        predecessors := predecessors + {fs[k].down.s};
      }
    }
    assert fs[..|fs|] == fs;
    r := SingleHead(revisions, predecessors);
  }

  /** What the build accepts the artifact check accepts, with the same head. */
  method BothHeads(fs: seq<Source>) returns (build: Option<string>, artifact: Option<string>)
    ensures build.Some? ==> artifact == build
    ensures build.Some? ==> BuildReads(fs) && HeadOf(fs, build.value)
    ensures build.None? ==> !BuildReads(fs) || forall h :: !HeadOf(fs, h)
  {
    build := BuildHead(fs);
    artifact := ArtifactHead(fs);
    if build.Some? {
      assert ArtifactReads(fs) && HeadOf(fs, build.value);
      assert artifact.Some?;
      assert artifact.value in {build.value};
    }
  }

  // ------------------------------------------------------------------ chains and cycles

  /** Each revision with its predecessor. */
  type Graph = map<string, Option<string>>

  function DownOf(f: Source): Option<string> {
    if f.down.Text? then Some(f.down.s) else None
  }

  function GraphOf(fs: seq<Source>): (g: Graph)
    requires BuildReads(fs)
    ensures g.Keys == Revisions(fs)
    ensures forall k :: 0 <= k < |fs| ==> fs[k].revision.s in g && g[fs[k].revision.s] == DownOf(fs[k])
  {
    if fs == [] then map[]
    else
      var before, last := fs[..|fs| - 1], fs[|fs| - 1];
      assert fs == before + [last];
      GraphOf(before)[last.revision.s := DownOf(last)]
  }

  /** `h` is the only revision that is nobody's predecessor, and all predecessors exist. */
  predicate Headed(g: Graph, h: string) {
    && h in g
    && (forall x :: x in g && g[x].Some? ==> g[x].value in g && g[x].value != h)
    && (forall y :: y in g && y != h ==> HasSuccessor(g, y))
  }

  predicate HasSuccessor(g: Graph, y: string) {
    exists x :: x in g && g[x] == Some(y)
  }

  lemma Successor(g: Graph, h: string, y: string) returns (x: string)
    requires Headed(g, h) && y in g && y != h
    ensures x in g && g[x] == Some(y)
  {
    assert HasSuccessor(g, y);
    x :| x in g && g[x] == Some(y);
  }

  lemma AcceptedIsHeaded(fs: seq<Source>, h: string)
    requires BuildReads(fs) && HeadOf(fs, h)
    ensures Headed(GraphOf(fs), h)
  {
    var g := GraphOf(fs);
    assert h in Revisions(fs) - Predecessors(fs);
    forall x | x in g && g[x].Some?
      ensures g[x].value in g && g[x].value != h
    {
      var f :| f in fs && f.revision.Text? && f.revision.s == x;
      assert g[x].value in Predecessors(fs);
    }
    forall y | y in g && y != h
      ensures HasSuccessor(g, y)
    {
      assert y in Revisions(fs) && y !in Revisions(fs) - Predecessors(fs);
      var f :| f in fs && f.down.Text? && f.down.s == y;
      assert g[f.revision.s] == Some(y);
    }
  }

  /** `p` follows predecessors: each element is the predecessor of the one before it. */
  ghost predicate Path(g: Graph, p: seq<string>) {
    && (forall k :: 0 <= k < |p| ==> p[k] in g)
    && (forall k: nat :: LinkAt(g, p, k))
  }

  predicate LinkAt(g: Graph, p: seq<string>, k: nat) {
    k + 1 < |p| ==> p[k] in g && g[p[k]] == Some(p[k + 1])
  }

  lemma PathSlice(g: Graph, p: seq<string>, i: nat, j: nat)
    requires Path(g, p) && i <= j <= |p|
    ensures Path(g, p[i..j])
  {
    forall k: nat
      ensures LinkAt(g, p[i..j], k)
    {
      assert LinkAt(g, p, i + k);
    }
  }

  lemma PathJoin(g: Graph, p: seq<string>, q: seq<string>)
    requires Path(g, p) && Path(g, q) && p != [] && q != [] && g[p[|p| - 1]] == Some(q[0])
    ensures Path(g, p + q)
  {
    forall k: nat
      ensures LinkAt(g, p + q, k)
    {
      assert LinkAt(g, p, k);
      if k >= |p| {
        assert LinkAt(g, q, k - |p|);
      }
    }
  }

  lemma Singleton(g: Graph, x: string)
    requires x in g
    ensures Path(g, [x])
  {
  }

  ghost predicate Cycle(g: Graph, c: seq<string>) {
    Path(g, c) && c != [] && g[c[|c| - 1]] == Some(c[0])
  }

  ghost predicate Acyclic(g: Graph) {
    forall c :: !Cycle(g, c)
  }

  predicate NoRepeats(p: seq<string>) {
    forall j, k :: 0 <= j < k < |p| ==> p[j] != p[k]
  }

  /** One line from the head down to the only root, through every revision. */
  ghost predicate Linear(g: Graph, h: string, p: seq<string>) {
    && Path(g, p) && p != [] && p[0] == h && g[p[|p| - 1]] == None
    && NoRepeats(p) && (forall x :: x in g ==> x in p)
  }

  lemma {:induction false} NoRepeatsSize(g: Graph, p: seq<string>)
    requires NoRepeats(p) && forall k :: 0 <= k < |p| ==> p[k] in g
    ensures |p| <= |g|
  {
    SetSize(p);
    SubsetSize((set x | x in p), g.Keys);
  }

  lemma {:induction false} SetSize(p: seq<string>)
    requires NoRepeats(p)
    ensures |(set x | x in p)| == |p|
  {
    if p != [] {
      var before, last := p[..|p| - 1], p[|p| - 1];
      SetSize(before);
      assert p == before + [last];
      assert (set x | x in p) == (set x | x in before) + {last};
    }
  }

  lemma NoRepeatsJoin(p: seq<string>, x: string)
    requires NoRepeats(p) && x !in p
    ensures NoRepeats(p + [x]) && NoRepeats([x] + p)
  {
  }

  lemma CloseCycle(g: Graph, p: seq<string>, x: string) returns (c: seq<string>)
    requires Path(g, p) && p != [] && x in p && g[p[|p| - 1]] == Some(x)
    ensures Cycle(g, c)
  {
    var k :| 0 <= k < |p| && p[k] == x;
    PathSlice(g, p, k, |p|);
    c := p[k..|p|];
  }

  lemma CloseCycleAbove(g: Graph, p: seq<string>, y: string) returns (c: seq<string>)
    requires Path(g, p) && p != [] && y in p && g[y] == Some(p[0])
    ensures Cycle(g, c)
  {
    var k :| 0 <= k < |p| && p[k] == y;
    PathSlice(g, p, 0, k + 1);
    c := p[0..k + 1];
  }

  /** Following predecessors from the head ends at a root, or runs into a cycle. */
  lemma {:induction false} Descend(g: Graph, h: string, p: seq<string>) returns (q: seq<string>)
    requires Headed(g, h) && Path(g, p) && p != [] && p[0] == h && NoRepeats(p)
    ensures Cycle(g, q) || (Path(g, q) && q != [] && q[0] == h && NoRepeats(q) && g[q[|q| - 1]] == None)
    decreases |g| - |p|
  {
    NoRepeatsSize(g, p);
    var last := p[|p| - 1];
    if g[last] == None {
      q := p;
    } else {
      var x := g[last].value;
      if x in p {
        q := CloseCycle(g, p, x);
      } else {
        PathJoin(g, p, [x]);
        NoRepeatsJoin(p, x);
        NoRepeatsSize(g, p + [x]);
        q := Descend(g, h, p + [x]);
      }
    }
  }

  /** The successor of a revision off the line is off the line too. */
  lemma OffLine(g: Graph, p: seq<string>, x: string, y: string)
    requires Path(g, p) && p != [] && g[p[|p| - 1]] == None && x !in p
    requires y in g && g[y] == Some(x)
    ensures y !in p
  {
    forall k | 0 <= k < |p|
      ensures p[k] != y
    {
      assert LinkAt(g, p, k);
    }
  }

  /** A revision off the line from the head to a root has ever more successors: they close a cycle. */
  lemma {:induction false} Ascend(g: Graph, h: string, p: seq<string>, w: seq<string>) returns (c: seq<string>)
    requires Headed(g, h) && Path(g, p) && p != [] && p[0] == h && g[p[|p| - 1]] == None
    requires Path(g, w) && w != [] && NoRepeats(w) && w[0] !in p
    ensures Cycle(g, c)
    decreases |g| - |w|
  {
    var x := w[0];
    assert p[0] in p;
    var y := Successor(g, h, x);
    OffLine(g, p, x, y);
    Singleton(g, y);
    if y in w {
      c := CloseCycleAbove(g, w, y);
    } else {
      PathJoin(g, [y], w);
      NoRepeatsJoin(w, y);
      NoRepeatsSize(g, [y] + w);
      c := Ascend(g, h, p, [y] + w);
    }
  }

  lemma AcyclicIsLinear(g: Graph, h: string) returns (p: seq<string>)
    requires Headed(g, h) && Acyclic(g)
    ensures Linear(g, h, p)
  {
    Singleton(g, h);
    p := Descend(g, h, [h]);
    forall x | x in g
      ensures x in p
    {
      if x !in p {
        Singleton(g, x);
        var c := Ascend(g, h, p, [x]);
      }
    }
  }

  lemma {:induction false} CycleOnLine(g: Graph, h: string, p: seq<string>, c: seq<string>, j: nat, i: nat)
    requires Linear(g, h, p) && Path(g, c) && i < |c| && j < |p| && c[0] == p[j]
    ensures j + i < |p| && c[i] == p[j + i]
  {
    if i > 0 {
      CycleOnLine(g, h, p, c, j, i - 1);
      assert LinkAt(g, c, i - 1);
      assert LinkAt(g, p, j + i - 1);
    }
  }

  lemma NoReturn(g: Graph, h: string, p: seq<string>, c: seq<string>)
    requires Linear(g, h, p) && Path(g, c) && c != []
    ensures g[c[|c| - 1]] != Some(c[0])
  {
    assert c[0] in p;
    var j :| 0 <= j < |p| && p[j] == c[0];
    var i := |c| - 1;
    CycleOnLine(g, h, p, c, j, i);
    assert LinkAt(g, p, j + i);
  }

  lemma LinearIsAcyclic(g: Graph, h: string, p: seq<string>)
    requires Linear(g, h, p)
    ensures Acyclic(g)
  {
    forall c
      ensures !Cycle(g, c)
    {
      if Path(g, c) && c != [] {
        NoReturn(g, h, p, c);
      }
    }
  }

  /**
   An accepted set of migrations is one line from its head through every
   revision to a unique root exactly when it has no cycle.
   */
  lemma AcceptedIsLinearExactly(fs: seq<Source>, h: string)
    requires BuildReads(fs) && HeadOf(fs, h)
    ensures Acyclic(GraphOf(fs)) <==> exists p :: Linear(GraphOf(fs), h, p)
  {
    var g := GraphOf(fs);
    AcceptedIsHeaded(fs, h);
    if Acyclic(g) {
      var p := AcyclicIsLinear(g, h);
    }
    if exists p :: Linear(g, h, p) {
      var p :| Linear(g, h, p);
      LinearIsAcyclic(g, h, p);
    }
  }

  lemma UniqueRoot(g: Graph, h: string, p: seq<string>, r: string)
    requires Linear(g, h, p) && r in g && g[r] == None
    ensures r == p[|p| - 1]
  {
    var k :| 0 <= k < |p| && p[k] == r;
    assert LinkAt(g, p, k);
  }

  /** A root, and beside it two revisions that precede each other. */
  function DetachedCycle(): seq<Source> {
    [Source(Text("a"), NoneLiteral), Source(Text("b"), Text("c")), Source(Text("c"), Text("b"))]
  }

  lemma DetachedCycleSets()
    ensures Revisions(DetachedCycle()) == {"a", "b", "c"} && Predecessors(DetachedCycle()) == {"b", "c"}
  {
    var fs := DetachedCycle();
    assert fs[0].revision.s == "a" && fs[1].revision.s == "b" && fs[2].revision.s == "c";
    assert fs[1].down.s == "c" && fs[2].down.s == "b";
  }

  lemma DetachedCycleReads()
    ensures BuildReads(DetachedCycle())
  {
  }

  lemma TwoCycle(g: Graph, x: string, y: string)
    requires x in g && y in g && g[x] == Some(y) && g[y] == Some(x)
    ensures Cycle(g, [x, y]) && !Acyclic(g)
  {
    assert Cycle(g, [x, y]);
  }

  /** A detached cycle beside the root is accepted. */
  lemma DetachedCycleAccepted()
    ensures BuildReads(DetachedCycle()) && HeadOf(DetachedCycle(), "a") && !Acyclic(GraphOf(DetachedCycle()))
  {
    var fs := DetachedCycle();
    DetachedCycleSets();
    DetachedCycleReads();
    var g := GraphOf(fs);
    assert g[fs[1].revision.s] == Some("c") && g[fs[2].revision.s] == Some("b");
    TwoCycle(g, "b", "c");
  }
}
