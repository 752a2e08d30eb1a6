/**
 The byte streams that the release rehearsal feeds to its hash: length-prefixed
 parts, the listing of a tree, and the rows of a database.  The hash itself is
 not modelled; two inputs are told apart by the hash only if their streams differ.
 */
module Fingerprint {
  import opened Common
  import opened Lexicographic
  import opened Sorting

  const WORD: int := 0x1_0000_0000_0000_0000

  // ------------------------------------------------------------------ framed parts

  /** The last `k` base-256 digits of `n`, most significant first. */
  function BigEndian(n: nat, k: nat): (b: bytes)
    ensures |b| == k
  {
    if k == 0 then [] else BigEndian(n / 256, k - 1) + [n % 256]
  }

  function FromBigEndian(b: bytes): nat {
    if b == [] then 0 else 256 * FromBigEndian(b[..|b| - 1]) + b[|b| - 1]
  }

  function Power256(k: nat): nat {
    if k == 0 then 1 else 256 * Power256(k - 1)
  }

  lemma {:induction false} BigEndianRoundTrip(n: nat, k: nat)
    requires n < Power256(k)
    ensures FromBigEndian(BigEndian(n, k)) == n
  {
    if k > 0 {
      BigEndianRoundTrip(n / 256, k - 1);
      var before := BigEndian(n / 256, k - 1);
      assert (before + [n % 256])[..|before|] == before;
    }
  }

  lemma Word()
    ensures Power256(8) == WORD
  {
    assert Power256(2) == 65536;
    assert Power256(4) == 65536 * Power256(2) by {
      assert Power256(4) == 256 * Power256(3) == 256 * (256 * Power256(2));
    }
    assert Power256(6) == 256 * Power256(5) == 256 * (256 * Power256(4));
    assert Power256(8) == 256 * Power256(7) == 256 * (256 * Power256(6));
  }

  function Frame(part: bytes): bytes {
    BigEndian(|part|, 8) + part
  }

  /** The frame of two bytes: the length in eight bytes, the most significant first. */
  lemma FrameExample()
    ensures Frame([7, 9]) == [0, 0, 0, 0, 0, 0, 0, 2, 7, 9]
  {
    assert BigEndian(0, 0) == [] && BigEndian(0, 1) == [0] && BigEndian(0, 2) == [0, 0] && BigEndian(0, 3) == [0, 0, 0];
    assert BigEndian(0, 5) == [0, 0, 0, 0, 0] && BigEndian(0, 7) == [0, 0, 0, 0, 0, 0, 0];
    assert BigEndian(2, 8) == [0, 0, 0, 0, 0, 0, 0, 2];
  }

  /** What the hash sees of a list of parts. */
  function Stream(parts: seq<bytes>): bytes {
    if parts == [] then [] else Frame(parts[0]) + Stream(parts[1..])
  }

  /** Lengths that fit the eight-byte prefix; for longer parts int.to_bytes(8, "big") raises OverflowError. */
  predicate Framable(parts: seq<bytes>) {
    forall k :: 0 <= k < |parts| ==> |parts[k]| < WORD
  }

  lemma FrameDecodes(p: bytes, q: bytes, x: bytes, y: bytes)
    requires |p| < WORD && |q| < WORD && Frame(p) + x == Frame(q) + y
    ensures p == q && x == y
  {
    Word();
    BigEndianRoundTrip(|p|, 8);
    BigEndianRoundTrip(|q|, 8);
    var s, t := Frame(p) + x, Frame(q) + y;
    assert s[..8] == BigEndian(|p|, 8) && t[..8] == BigEndian(|q|, 8);
    assert s[8..8 + |p|] == p && t[8..8 + |q|] == q;
    assert s[8 + |p|..] == x && t[8 + |q|..] == y;
  }

  /** Framed streams are uniquely decodable. */
  lemma {:induction false} StreamInjective(ps: seq<bytes>, qs: seq<bytes>)
    requires Framable(ps) && Framable(qs) && Stream(ps) == Stream(qs)
    ensures ps == qs
  {
    if ps != [] && qs != [] {
      FrameDecodes(ps[0], qs[0], Stream(ps[1..]), Stream(qs[1..]));
      StreamInjective(ps[1..], qs[1..]);
      assert ps == [ps[0]] + ps[1..] && qs == [qs[0]] + qs[1..];
    } else {
      assert ps != [] ==> |Stream(ps)| >= 8;
      assert qs != [] ==> |Stream(qs)| >= 8;
    }
  }

  lemma {:induction false} StreamAppend(ps: seq<bytes>, qs: seq<bytes>)
    ensures Stream(ps + qs) == Stream(ps) + Stream(qs)
  {
    if ps == [] {
      assert ps + qs == qs;
    } else {
      StreamAppend(ps[1..], qs);
      assert (ps + qs)[1..] == ps[1..] + qs;
      Associative(Frame(ps[0]), Stream(ps[1..]), Stream(qs));
    }
  }

  lemma Associative<T>(x: seq<T>, y: seq<T>, z: seq<T>)
    ensures x + (y + z) == x + y + z
  {
  }

  lemma OnePart(part: bytes)
    ensures Stream([part]) == Frame(part)
  {
    var parts: seq<bytes> := [part];
    assert |parts[1..]| == 0;
  }

  /** Feeds `parts` to a hash that has already seen `fed`. */
  method Update(fed: bytes, parts: seq<bytes>) returns (stream: bytes)
    ensures stream == fed + Stream(parts)
  {
    stream := fed;
    for k := 0 to |parts|
      invariant stream == fed + Stream(parts[..k])
    {
      stream := stream + BigEndian(|parts[k]|, 8);
      stream := stream + parts[k];
      assert parts[..k + 1] == parts[..k] + [parts[k]];
      StreamAppend(parts[..k], [parts[k]]);
      OnePart(parts[k]);
    }
    assert parts[..|parts|] == parts;
  }

  // ------------------------------------------------------------------ trees

  /** A listed member: its path, its permission bits and, for a file, the digest of its content. */
  datatype Member =
    | Directory(path: bytes, mode: nat)
    | RegularFile(path: bytes, mode: nat, digest: bytes)

  const DIRECTORY: bytes := [100, 105, 114, 101, 99, 116, 111, 114, 121]
  const FILE: bytes := [102, 105, 108, 101]

  /** The mode as four octal digits. */
  function Octal(mode: nat): bytes
    requires mode < 4096
  {
    [48 + mode / 512, 48 + mode / 64 % 8, 48 + mode / 8 % 8, 48 + mode % 8]
  }

  lemma OctalInjective(m: nat, n: nat)
    requires m < 4096 && n < 4096 && Octal(m) == Octal(n)
    ensures m == n
  {
    assert Octal(m)[0] == Octal(n)[0] && Octal(m)[1] == Octal(n)[1];
    assert Octal(m)[2] == Octal(n)[2] && Octal(m)[3] == Octal(n)[3];
    OctalValue(m);
    OctalValue(n);
  }

  lemma OctalValue(m: nat)
    ensures m == 8 * (8 * (8 * (m / 512) + m / 64 % 8) + m / 8 % 8) + m % 8
  {
    assert m / 64 == m / 8 / 8;
    assert m / 512 == m / 64 / 8;
  }

  predicate Listable(m: Member) {
    m.mode < 4096 && |m.path| < WORD && (m.RegularFile? ==> |m.digest| < WORD)
  }

  function MemberParts(m: Member): seq<bytes>
    requires Listable(m)
  {
    match m
    case Directory(path, mode) => [DIRECTORY, path, Octal(mode)]
    case RegularFile(path, mode, digest) => [FILE, path, Octal(mode), digest]
  }

  function ListingParts(ms: seq<Member>): seq<bytes>
    requires forall m :: m in ms ==> Listable(m)
  {
    if ms == [] then [] else MemberParts(ms[0]) + ListingParts(ms[1..])
  }

  lemma MemberDecodes(m: Member, n: Member, x: seq<bytes>, y: seq<bytes>)
    requires Listable(m) && Listable(n) && MemberParts(m) + x == MemberParts(n) + y
    ensures m == n && x == y
  {
    var s, t := MemberParts(m) + x, MemberParts(n) + y;
    assert s[0] == MemberParts(m)[0] && t[0] == MemberParts(n)[0];
    assert |DIRECTORY| != |FILE|;
    assert s[1] == m.path && t[1] == n.path;
    assert s[2] == Octal(m.mode) && t[2] == Octal(n.mode);
    OctalInjective(m.mode, n.mode);
    if m.RegularFile? {
      assert s[3] == m.digest && t[3] == n.digest;
      assert s[4..] == x && t[4..] == y;
    } else {
      assert s[3..] == x && t[3..] == y;
    }
  }

  lemma {:induction false} ListingDecodes(ms: seq<Member>, ns: seq<Member>)
    requires (forall m :: m in ms ==> Listable(m)) && (forall n :: n in ns ==> Listable(n))
    requires ListingParts(ms) == ListingParts(ns)
    ensures ms == ns
  {
    if ms != [] && ns != [] {
      MemberDecodes(ms[0], ns[0], ListingParts(ms[1..]), ListingParts(ns[1..]));
      ListingDecodes(ms[1..], ns[1..]);
      assert ms == [ms[0]] + ms[1..] && ns == [ns[0]] + ns[1..];
    }
  }

  predicate ByPath(m: Member, n: Member) {
    BytesLeq(m.path, n.path)
  }

  lemma ByPathOrder()
    ensures TotalPreorder(ByPath)
  {
    BytesOrder();
    assert forall x: Member, y: Member :: BytesLeq(x.path, y.path) || BytesLeq(y.path, x.path);
    forall x: Member, y: Member, z: Member | ByPath(x, y) && ByPath(y, z)
      ensures ByPath(x, z)
    {
      Transitive(x.path, y.path, z.path, ByteCode);
    }
  }

  predicate DistinctPaths(ms: seq<Member>) {
    forall m, n :: m in ms && n in ms && m.path == n.path ==> m == n
  }

  /** What the hash sees of a tree, listed in any order. */
  function TreeStream(ms: seq<Member>): bytes
    requires forall m :: m in ms ==> Listable(m)
  {
    SortMembers(ms, ByPath);
    Stream(ListingParts(Sort(ms, ByPath)))
  }

  /** The stream is that of one listing: the members in ascending order of their paths. */
  lemma TreeStreamSorted(ms: seq<Member>) returns (sorted: seq<Member>)
    requires forall m :: m in ms ==> Listable(m)
    ensures multiset(sorted) == multiset(ms)
    ensures forall j, k :: 0 <= j < k < |sorted| ==> BytesLeq(sorted[j].path, sorted[k].path)
    ensures (forall m :: m in sorted ==> Listable(m)) && TreeStream(ms) == Stream(ListingParts(sorted))
  {
    sorted := Sort(ms, ByPath);
    SortPermutes(ms, ByPath);
    SortMembers(ms, ByPath);
    ByPathOrder();
    SortSorts(ms, ByPath);
    assert forall j, k :: 0 <= j < k < |sorted| ==> ByPath(sorted[j], sorted[k]);
  }

  /** What a member contributes: its kind as a word, its path, four octal digits and a digest. */
  lemma MemberPartsSpelled(m: Member)
    requires Listable(m)
    ensures var parts := MemberParts(m);
            && |parts| == (if m.Directory? then 3 else 4) && parts[1] == m.path
            && parts[0] == (if m.Directory? then Ascii("directory") else Ascii("file"))
            && (m.RegularFile? ==> parts[3] == m.digest)
            && |parts[2]| == 4 && (forall k :: 0 <= k < 4 ==> 48 <= parts[2][k] <= 55)
            && m.mode == 512 * DigitValue(parts[2][0]) + 64 * DigitValue(parts[2][1])
                         + 8 * DigitValue(parts[2][2]) + DigitValue(parts[2][3])
  {
    OctalValue(m.mode);
    TagsSpelled();
  }

  /** The value of the ASCII code of a digit. */
  function DigitValue(b: byte): int {
    b - 48
  }

  function Ascii(s: string): bytes
    requires forall k :: 0 <= k < |s| ==> s[k] as int < 128
  {
    seq(|s|, k requires 0 <= k < |s| => s[k] as int)
  }

  lemma TagsSpelled()
    ensures DIRECTORY == Ascii("directory") && FILE == Ascii("file")
  {
    var d, f := "directory", "file";
    assert |DIRECTORY| == |d| && forall k :: 0 <= k < |d| ==> DIRECTORY[k] == d[k] as int;
    assert |FILE| == |f| && forall k :: 0 <= k < |f| ==> FILE[k] == f[k] as int;
  }

  lemma {:induction false} ListingFramable(ms: seq<Member>)
    requires forall m :: m in ms ==> Listable(m)
    ensures Framable(ListingParts(ms))
  {
    if ms != [] {
      ListingFramable(ms[1..]);
      assert Listable(ms[0]);
      assert Framable(MemberParts(ms[0]));
    }
  }

  /**
   Two trees give the same stream exactly when they have the same members, with
   the same kinds, paths, modes and digests.
   */
  lemma TreeExactly(ms: seq<Member>, ns: seq<Member>)
    requires (forall m :: m in ms ==> Listable(m)) && (forall n :: n in ns ==> Listable(n))
    requires DistinctPaths(ms) && DistinctPaths(ns)
    ensures TreeStream(ms) == TreeStream(ns) <==> multiset(ms) == multiset(ns)
  {
    var sorted, sorted' := Sort(ms, ByPath), Sort(ns, ByPath);
    SortMembers(ms, ByPath);
    SortMembers(ns, ByPath);
    SortPermutes(ms, ByPath);
    SortPermutes(ns, ByPath);
    if TreeStream(ms) == TreeStream(ns) {
      ListingFramable(sorted);
      ListingFramable(sorted');
      StreamInjective(ListingParts(sorted), ListingParts(sorted'));
      ListingDecodes(sorted, sorted');
    }
    if multiset(ms) == multiset(ns) {
      ByPathOrder();
      SortSorts(ms, ByPath);
      SortSorts(ns, ByPath);
      forall x, y | x in sorted && y in sorted && ByPath(x, y) && ByPath(y, x)
        ensures x == y
      {
        Antisym(x.path, y.path, ByteCode);
      }
      SortedUnique(sorted, sorted', ByPath);
    }
  }

  const MAX_TREE_MEMBERS := 100_000
  const MAX_TREE_BYTES := 2 * 1024 * 1024 * 1024

  /** What a directory walk meets: a member with its size, or something that is refused. */
  datatype Found = Listed(member: Member, size: nat) | Unsafe(path: bytes)

  function PathOf(f: Found): bytes {
    if f.Listed? then f.member.path else f.path
  }

  predicate FoundBefore(f: Found, g: Found) {
    BytesLeq(PathOf(f), PathOf(g))
  }

  predicate Fingerprintable(fs: seq<Found>) {
    && |fs| <= MAX_TREE_MEMBERS && (forall f :: f in fs ==> f.Listed?)
    && FileBytes(fs) <= MAX_TREE_BYTES
  }

  function FileBytes(fs: seq<Found>): nat {
    if fs == [] then 0
    else
      var last := fs[|fs| - 1];
      FileBytes(fs[..|fs| - 1]) + if last.Listed? && last.member.RegularFile? then last.size else 0
  }

  function SizeOf(f: Found): nat {
    if f.Listed? && f.member.RegularFile? then f.size else 0
  }

  lemma {:induction false} FileBytesCons(f: Found, fs: seq<Found>)
    ensures FileBytes([f] + fs) == SizeOf(f) + FileBytes(fs)
  {
    var all := [f] + fs;
    if fs == [] {
      assert all == [f] && [f][..0] == [];
    } else {
      FileBytesCons(f, fs[..|fs| - 1]);
      assert all[..|all| - 1] == [f] + fs[..|fs| - 1];
    }
  }

  lemma {:induction false} FileBytesInsert(f: Found, fs: seq<Found>)
    ensures FileBytes(Insert(f, fs, FoundBefore)) == SizeOf(f) + FileBytes(fs)
  {
    if fs == [] || FoundBefore(f, fs[0]) {
      FileBytesCons(f, fs);
      assert fs == [] ==> [f] + fs == [f];
    } else {
      FileBytesInsert(f, fs[1..]);
      FileBytesCons(fs[0], Insert(f, fs[1..], FoundBefore));
      FileBytesCons(fs[0], fs[1..]);
      assert fs == [fs[0]] + fs[1..];
    }
  }

  /** The number of bytes does not depend on the order of the walk. */
  lemma {:induction false} FileBytesSort(fs: seq<Found>)
    ensures FileBytes(Sort(fs, FoundBefore)) == FileBytes(fs)
  {
    if fs != [] {
      FileBytesSort(fs[1..]);
      FileBytesInsert(fs[0], Sort(fs[1..], FoundBefore));
      FileBytesCons(fs[0], fs[1..]);
      assert fs == [fs[0]] + fs[1..];
    }
  }

  function Members(fs: seq<Found>): (ms: seq<Member>)
    requires forall f :: f in fs ==> f.Listed?
    ensures |ms| == |fs| && forall k :: 0 <= k < |fs| ==> ms[k] == fs[k].member
  {
    seq(|fs|, k requires 0 <= k < |fs| => fs[k].member)
  }

  lemma {:induction false} FileBytesPrefix(fs: seq<Found>, k: nat)
    requires k <= |fs|
    ensures FileBytes(fs[..k]) <= FileBytes(fs)
  {
    if k < |fs| {
      FileBytesPrefix(fs[..|fs| - 1], k);
      assert fs[..|fs| - 1][..k] == fs[..k];
    } else {
      assert fs[..k] == fs;
    }
  }

  lemma {:induction false} ListingAppend(ms: seq<Member>, m: Member)
    requires (forall x :: x in ms ==> Listable(x)) && Listable(m)
    ensures ListingParts(ms + [m]) == ListingParts(ms) + MemberParts(m)
  {
    if ms == [] {
      assert ms + [m] == [m];
      assert [m][1..] == ms;
    } else {
      ListingAppend(ms[1..], m);
      assert (ms + [m])[0] == ms[0] && (ms + [m])[1..] == ms[1..] + [m];
      Associative(MemberParts(ms[0]), ListingParts(ms[1..]), MemberParts(m));
    }
  }

  /** What one listed member adds to the stream and to the byte count. */
  lemma WalkStep(fs: seq<Found>, k: nat)
    requires k < |fs| && forall f :: f in fs[..k + 1] ==> f.Listed? && Listable(f.member)
    ensures forall f :: f in fs[..k] ==> f in fs[..k + 1]
    ensures FileBytes(fs[..k + 1]) == FileBytes(fs[..k]) + if fs[k].member.RegularFile? then fs[k].size else 0
    ensures Stream(ListingParts(Members(fs[..k + 1])))
            == Stream(ListingParts(Members(fs[..k]))) + Stream(MemberParts(fs[k].member))
  {
    assert fs[..k + 1] == fs[..k] + [fs[k]];
    assert fs[..k + 1][..k] == fs[..k] && fs[..k + 1][k] == fs[k];
    var ms := Members(fs[..k]);
    assert Members(fs[..k + 1]) == ms + [fs[k].member];
    assert forall m :: m in ms ==> Listable(m);
    ListingAppend(ms, fs[k].member);
    StreamAppend(ListingParts(ms), MemberParts(fs[k].member));
  }

  lemma {:induction false} InsertFound(f: Found, fs: seq<Found>)
    requires f.Listed? && forall g :: g in fs ==> g.Listed?
    ensures forall g :: g in Insert(f, fs, FoundBefore) ==> g.Listed?
    ensures Members(Insert(f, fs, FoundBefore)) == Insert(f.member, Members(fs), ByPath)
  {
    if fs != [] {
      assert Members(fs)[1..] == Members(fs[1..]);
      if FoundBefore(f, fs[0]) {
        assert Members([f] + fs) == [f.member] + Members(fs);
      } else {
        InsertFound(f, fs[1..]);
        assert Members([fs[0]] + Insert(f, fs[1..], FoundBefore))
            == [fs[0].member] + Members(Insert(f, fs[1..], FoundBefore));
      }
    }
  }

  lemma {:induction false} SortFound(fs: seq<Found>)
    requires forall g :: g in fs ==> g.Listed?
    ensures forall g :: g in Sort(fs, FoundBefore) ==> g.Listed?
    ensures Members(Sort(fs, FoundBefore)) == Sort(Members(fs), ByPath)
  {
    if fs != [] {
      SortFound(fs[1..]);
      assert Members(fs)[1..] == Members(fs[1..]);
      InsertFound(fs[0], Sort(fs[1..], FoundBefore));
    }
  }

  /** The walk over the members in path order, with its limits. */
  method Walk(ordered: seq<Found>) returns (r: Option<bytes>)
    requires forall f :: f in ordered && f.Listed? ==> Listable(f.member)
    ensures r.Some? <==> Fingerprintable(ordered)
    ensures r.Some? ==> r.value == Stream(ListingParts(Members(ordered)))
  {
    var stream: bytes, byteCount := [], 0;
    for k := 0 to |ordered|
      invariant k <= MAX_TREE_MEMBERS
      invariant forall f :: f in ordered[..k] ==> f.Listed? && Listable(f.member)
      invariant byteCount == FileBytes(ordered[..k]) <= MAX_TREE_BYTES
      invariant stream == Stream(ListingParts(Members(ordered[..k])))
    {
      var f := ordered[k];
      assert f in ordered;
      if k + 1 > MAX_TREE_MEMBERS || f.Unsafe? {
        return None;
      }
      assert ordered[..k + 1] == ordered[..k] + [f];
      WalkStep(ordered, k);
      FileBytesPrefix(ordered, k + 1);
      if f.member.RegularFile? {
        byteCount := byteCount + f.size;
        if byteCount > MAX_TREE_BYTES {
          return None;
        }
      }
      stream := Update(stream, MemberParts(f.member));
    }
    assert ordered[..|ordered|] == ordered;
    return Some(stream);
  }

  method TreeFingerprint(found: seq<Found>) returns (r: Option<bytes>)
    requires forall f :: f in found && f.Listed? ==> Listable(f.member)
    ensures r.Some? <==> && |found| <= 100_000 && (forall f :: f in found ==> f.Listed?)
                         && FileBytes(found) <= 2 * 1024 * 1024 * 1024
    ensures r.Some? ==> r.value == TreeStream(Members(found))
  {
    SortMembers(found, FoundBefore);
    FileBytesSort(found);
    r := Walk(Sort(found, FoundBefore));
    if r.Some? {
      SortFound(found);
    }
  }

  // ------------------------------------------------------------------ databases

  /** A value as SQLite returns it; floats are taken by their exact hexadecimal form. */
  datatype Value = Null | Bool(b: bool) | Integer(n: int) | Real(hex: string) | Txt(s: string) | Blob(data: bytes)

  datatype Json = Str(s: string) | Num(n: int) | List(items: seq<Json>)

  function HexDigit(n: int): char
    requires 0 <= n < 16
  {
    "0123456789abcdef"[n]
  }

  function Hex(b: bytes): string {
    if b == [] then "" else [HexDigit(b[0] / 16), HexDigit(b[0] % 16)] + Hex(b[1..])
  }

  /** Two lower-case hexadecimal digits per byte, the high one first. */
  lemma {:induction false} HexSpelled(b: bytes, k: nat)
    requires k < |b|
    ensures |Hex(b)| == 2 * |b| && LowerHex(Hex(b))
    ensures DigitOf(Hex(b)[2 * k]) * 16 + DigitOf(Hex(b)[2 * k + 1]) == b[k]
  {
    HexPair(b[0]);
    if |b| == 1 {
      assert b[1..] == [];
    } else {
      HexSpelled(b[1..], if k == 0 then 0 else k - 1);
    }
  }

  /** The value of a hexadecimal digit. */
  function DigitOf(c: char): int {
    if '0' <= c <= '9' then c as int - 48 else c as int - 87
  }

  lemma HexPair(x: byte)
    ensures DigitOf(HexDigit(x / 16)) == x / 16 && DigitOf(HexDigit(x % 16)) == x % 16
    ensures LowerHex([HexDigit(x / 16), HexDigit(x % 16)])
  {
    DigitSpelled(x / 16);
    DigitSpelled(x % 16);
  }

  lemma DigitSpelled(n: int)
    requires 0 <= n < 16
    ensures DigitOf(HexDigit(n)) == n && LowerHex([HexDigit(n)])
  {
  }

  lemma {:induction false} HexInjective(b: bytes, c: bytes)
    requires Hex(b) == Hex(c)
    ensures b == c
  {
    if b != [] && c != [] {
      assert Hex(b)[0] == Hex(c)[0] && Hex(b)[1] == Hex(c)[1];
      HexDigitInjective(b[0] / 16, c[0] / 16);
      HexDigitInjective(b[0] % 16, c[0] % 16);
      assert Hex(b)[2..] == Hex(b[1..]) && Hex(c)[2..] == Hex(c[1..]);
      HexInjective(b[1..], c[1..]);
      assert b == [b[0]] + b[1..] && c == [c[0]] + c[1..];
    }
  }

  lemma HexDigitInjective(m: int, n: int)
    requires 0 <= m < 16 && 0 <= n < 16 && HexDigit(m) == HexDigit(n)
    ensures m == n
  {
    assert HexDigit(m) == (if m < 10 then '0' as int + m else 'a' as int + m - 10) as char;
    assert HexDigit(n) == (if n < 10 then '0' as int + n else 'a' as int + n - 10) as char;
  }

  function EncodeValue(v: Value): Json {
    match v
    case Null => List([Str("null")])
    case Bool(b) => List([Str("integer"), Num(if b then 1 else 0)])
    case Integer(n) => List([Str("integer"), Num(n)])
    case Real(hex) => List([Str("real"), Str(hex)])
    case Txt(s) => List([Str("text"), Str(s)])
    case Blob(b) => List([Str("blob"), Str(Hex(b))])
  }

  /** Values that SQLite can return: it has no booleans of its own. */
  predicate Stored(v: Value) {
    !v.Bool?
  }

  /** What the encoding keeps of a value: booleans become the integers 0 and 1. */
  function Plain(v: Value): Value {
    match v
    case Bool(true) => Integer(1)
    case Bool(false) => Integer(0)
    case _ => v
  }

  /** Two values are encoded alike exactly when they are the same but for that. */
  lemma EncodeValueExactly(v: Value, w: Value)
    ensures EncodeValue(v) == EncodeValue(w) <==> Plain(v) == Plain(w)
  {
    assert EncodeValue(v) == EncodeValue(Plain(v)) && EncodeValue(w) == EncodeValue(Plain(w));
    if EncodeValue(v) == EncodeValue(w) {
      EncodeValueInjective(Plain(v), Plain(w));
    }
  }

  lemma EncodeValueInjective(v: Value, w: Value)
    requires Stored(v) && Stored(w) && EncodeValue(v) == EncodeValue(w)
    ensures v == w
  {
    assert EncodeValue(v).items[0] == EncodeValue(w).items[0];
    assert "null" != "text" && "real"[0] != "text"[0] && "blob"[0] != "text"[0] && "blob"[0] != "real"[0];
    assert "null"[0] != "real"[0] && "null"[0] != "blob"[0] && |"integer"| == 7;
    if !v.Null? {
      assert EncodeValue(v).items[1] == EncodeValue(w).items[1];
      if v.Blob? {
        HexInjective(v.data, w.data);
      }
    }
  }

  type Row = seq<Value>

  function EncodeRow(r: Row): Json {
    List(seq(|r|, k requires 0 <= k < |r| => EncodeValue(r[k])))
  }

  lemma EncodeRowInjective(r: Row, q: Row)
    requires (forall v :: v in r ==> Stored(v)) && (forall v :: v in q ==> Stored(v))
    requires EncodeRow(r) == EncodeRow(q)
    ensures r == q
  {
    var a, b := EncodeRow(r).items, EncodeRow(q).items;
    assert |a| == |r| && |b| == |q|;
    forall k | 0 <= k < |r|
      ensures r[k] == q[k]
    {
      assert a[k] == b[k];
      assert r[k] in r && q[k] in q;
      EncodeValueInjective(r[k], q[k]);
    }
  }

  function Header(name: string, count: nat): Json {
    List([Str("table"), Str(name), Num(count)])
  }

  datatype Table = Table(name: string, rows: seq<Row>)

  /** The canonical JSON encoder, of which only injectivity is used. */
  ghost predicate Injective(json: Json -> bytes) {
    forall a, b :: json(a) == json(b) ==> a == b
  }

  function EncodedRows(rows: seq<Row>, json: Json -> bytes): (e: seq<bytes>)
    ensures |e| == |rows| && forall k :: 0 <= k < |rows| ==> e[k] == json(EncodeRow(rows[k]))
  {
    seq(|rows|, k requires 0 <= k < |rows| => json(EncodeRow(rows[k])))
  }

  function TableParts(t: Table, json: Json -> bytes): (parts: seq<bytes>)
    ensures |parts| == 1 + |t.rows|
  {
    SortMembers(EncodedRows(t.rows, json), BytesLeq);
    [json(Header(t.name, |t.rows|))] + Sort(EncodedRows(t.rows, json), BytesLeq)
  }

  function DataParts(ts: seq<Table>, json: Json -> bytes): seq<bytes> {
    if ts == [] then [] else TableParts(ts[0], json) + DataParts(ts[1..], json)
  }

  /** The same tables in the same order, each with the same rows in any order. */
  predicate SameData(ts: seq<Table>, us: seq<Table>) {
    && |ts| == |us|
    && forall k :: 0 <= k < |ts| ==> ts[k].name == us[k].name && multiset(ts[k].rows) == multiset(us[k].rows)
  }

  predicate StoredRows(rows: seq<Row>) {
    forall r :: r in rows ==> forall v :: v in r ==> Stored(v)
  }

  lemma {:induction false} EncodedMultiset(rows: seq<Row>, r: Row, json: Json -> bytes)
    requires Injective(json) && StoredRows(rows) && (forall v :: v in r ==> Stored(v))
    ensures multiset(EncodedRows(rows, json))[json(EncodeRow(r))] == multiset(rows)[r]
  {
    if rows != [] {
      var before, last := rows[..|rows| - 1], rows[|rows| - 1];
      assert rows == before + [last];
      assert EncodedRows(rows, json) == EncodedRows(before, json) + [json(EncodeRow(last))];
      assert forall x :: x in before ==> x in rows;
      EncodedMultiset(before, r, json);
      assert last in rows;
      if last != r && EncodeRow(last) == EncodeRow(r) {
        EncodeRowInjective(last, r);
      }
    }
  }

  lemma {:induction false} MultisetEncoded(rows: seq<Row>, e: bytes, json: Json -> bytes)
    requires e in multiset(EncodedRows(rows, json))
    ensures exists r :: r in rows && e == json(EncodeRow(r))
  {
    assert e in EncodedRows(rows, json);
    var k :| 0 <= k < |rows| && EncodedRows(rows, json)[k] == e;
    assert rows[k] in rows;
  }

  /** Encoding keeps rows apart: the encoded multisets agree exactly when the rows do. */
  lemma RowsExactly(rows: seq<Row>, others: seq<Row>, json: Json -> bytes)
    requires Injective(json) && StoredRows(rows) && StoredRows(others)
    ensures multiset(EncodedRows(rows, json)) == multiset(EncodedRows(others, json))
            <==> multiset(rows) == multiset(others)
  {
    var e, f := multiset(EncodedRows(rows, json)), multiset(EncodedRows(others, json));
    if e == f {
      forall r: Row
        ensures multiset(rows)[r] == multiset(others)[r]
      {
        if r in rows || r in others {
          EncodedMultiset(rows, r, json);
          EncodedMultiset(others, r, json);
        }
      }
    }
    if multiset(rows) == multiset(others) {
      forall x
        ensures e[x] == f[x]
      {
        if x in e || x in f {
          if x in e {
            MultisetEncoded(rows, x, json);
          } else {
            MultisetEncoded(others, x, json);
          }
          var r :| (r in rows || r in others) && x == json(EncodeRow(r));
          EncodedMultiset(rows, r, json);
          EncodedMultiset(others, r, json);
        }
      }
    }
  }

  /** Sorting makes a table's parts depend on the multiset of its rows only, and on all of it. */
  /** A table contributes its header and then its encoded rows in ascending order. */
  lemma TablePartsSorted(t: Table, json: Json -> bytes)
    ensures var parts := TableParts(t, json);
            && |parts| == 1 + |t.rows| && parts[0] == json(List([Str("table"), Str(t.name), Num(|t.rows|)]))
            && multiset(parts[1..]) == multiset(EncodedRows(t.rows, json))
            && forall j, k :: 1 <= j < k < |parts| ==> BytesLeq(parts[j], parts[k])
  {
    var encoded, parts := EncodedRows(t.rows, json), TableParts(t, json);
    SortPermutes(encoded, BytesLeq);
    BytesOrder();
    SortSorts(encoded, BytesLeq);
    assert parts[1..] == Sort(encoded, BytesLeq);
    forall j, k | 1 <= j < k < |parts|
      ensures BytesLeq(parts[j], parts[k])
    {
      assert parts[1..][j - 1] == parts[j] && parts[1..][k - 1] == parts[k];
    }
  }

  /** The tags of the encoded values. */
  lemma EncodeSpelled(n: int, s: string, b: bytes)
    ensures EncodeValue(Null) == List([Str("null")])
    ensures EncodeValue(Integer(n)) == List([Str("integer"), Num(n)])
    ensures EncodeValue(Real(s)) == List([Str("real"), Str(s)])
    ensures EncodeValue(Txt(s)) == List([Str("text"), Str(s)])
    ensures EncodeValue(Blob(b)) == List([Str("blob"), Str(Hex(b))])
  {
  }

  lemma TableDecodes(t: Table, u: Table, x: seq<bytes>, y: seq<bytes>, json: Json -> bytes)
    requires Injective(json) && StoredRows(t.rows) && StoredRows(u.rows)
    requires TableParts(t, json) + x == TableParts(u, json) + y
    ensures t.name == u.name && multiset(t.rows) == multiset(u.rows) && x == y
  {
    var p, q := TableParts(t, json), TableParts(u, json);
    assert (p + x)[0] == p[0] && (q + y)[0] == q[0];
    assert Header(t.name, |t.rows|) == Header(u.name, |u.rows|);
    assert Header(t.name, |t.rows|).items[1] == Header(u.name, |u.rows|).items[1];
    assert Header(t.name, |t.rows|).items[2] == Header(u.name, |u.rows|).items[2];
    assert (p + x)[..|p|] == p && (q + y)[..|q|] == q;
    assert (p + x)[|p|..] == x && (q + y)[|q|..] == y;
    assert p[1..] == Sort(EncodedRows(t.rows, json), BytesLeq);
    assert q[1..] == Sort(EncodedRows(u.rows, json), BytesLeq);
    SortPermutes(EncodedRows(t.rows, json), BytesLeq);
    SortPermutes(EncodedRows(u.rows, json), BytesLeq);
    RowsExactly(t.rows, u.rows, json);
  }

  lemma TableAgrees(t: Table, u: Table, json: Json -> bytes)
    requires Injective(json) && StoredRows(t.rows) && StoredRows(u.rows)
    requires t.name == u.name && multiset(t.rows) == multiset(u.rows)
    ensures TableParts(t, json) == TableParts(u, json)
  {
    assert |t.rows| == |multiset(t.rows)| == |multiset(u.rows)| == |u.rows|;
    RowsExactly(t.rows, u.rows, json);
    var e, f := EncodedRows(t.rows, json), EncodedRows(u.rows, json);
    BytesOrder();
    SortSorts(e, BytesLeq);
    SortSorts(f, BytesLeq);
    SortPermutes(e, BytesLeq);
    SortPermutes(f, BytesLeq);
    SortedUnique(Sort(e, BytesLeq), Sort(f, BytesLeq), BytesLeq);
  }

  lemma TableExactly(t: Table, u: Table, x: seq<bytes>, y: seq<bytes>, json: Json -> bytes)
    requires Injective(json) && StoredRows(t.rows) && StoredRows(u.rows)
    ensures TableParts(t, json) + x == TableParts(u, json) + y
            <==> t.name == u.name && multiset(t.rows) == multiset(u.rows) && x == y
  {
    if TableParts(t, json) + x == TableParts(u, json) + y {
      TableDecodes(t, u, x, y, json);
    }
    if t.name == u.name && multiset(t.rows) == multiset(u.rows) {
      TableAgrees(t, u, json);
    }
  }

  lemma SameDataCons(ts: seq<Table>, us: seq<Table>)
    requires ts != [] && us != []
    ensures SameData(ts, us) <==>
            && ts[0].name == us[0].name && multiset(ts[0].rows) == multiset(us[0].rows)
            && SameData(ts[1..], us[1..])
  {
    if SameData(ts[1..], us[1..]) && ts[0].name == us[0].name && multiset(ts[0].rows) == multiset(us[0].rows) {
      forall k | 0 <= k < |ts|
        ensures ts[k].name == us[k].name && multiset(ts[k].rows) == multiset(us[k].rows)
      {
        assert k > 0 ==> ts[k] == ts[1..][k - 1] && us[k] == us[1..][k - 1];
      }
    }
  }

  lemma {:induction false} PartsExactly(ts: seq<Table>, us: seq<Table>, json: Json -> bytes)
    requires Injective(json)
    requires forall t :: t in ts ==> StoredRows(t.rows)
    requires forall u :: u in us ==> StoredRows(u.rows)
    ensures DataParts(ts, json) == DataParts(us, json) <==> SameData(ts, us)
  {
    if ts != [] && us != [] {
      PartsExactly(ts[1..], us[1..], json);
      SameDataCons(ts, us);
      TableExactly(ts[0], us[0], DataParts(ts[1..], json), DataParts(us[1..], json), json);
    }
  }

  /**
   Two databases give the same data stream exactly when they have the same
   tables with the same rows, whatever order the rows are read in.
   */
  lemma DatabaseExactly(ts: seq<Table>, us: seq<Table>, json: Json -> bytes)
    requires Injective(json)
    requires forall t :: t in ts ==> StoredRows(t.rows)
    requires forall u :: u in us ==> StoredRows(u.rows)
    requires Framable(DataParts(ts, json)) && Framable(DataParts(us, json))
    ensures Stream(DataParts(ts, json)) == Stream(DataParts(us, json)) <==> SameData(ts, us)
  {
    PartsExactly(ts, us, json);
    if Stream(DataParts(ts, json)) == Stream(DataParts(us, json)) {
      StreamInjective(DataParts(ts, json), DataParts(us, json));
    }
  }

  const MAX_DATABASE_ROWS := 2_000_000

  function RowCount(ts: seq<Table>): nat {
    if ts == [] then 0 else RowCount(ts[..|ts| - 1]) + |ts[|ts| - 1].rows|
  }

  lemma {:induction false} RowCountPrefix(ts: seq<Table>, k: nat)
    requires k <= |ts|
    ensures RowCount(ts[..k]) <= RowCount(ts)
  {
    if k < |ts| {
      RowCountPrefix(ts[..|ts| - 1], k);
      assert ts[..|ts| - 1][..k] == ts[..k];
    } else {
      assert ts[..k] == ts;
    }
  }

  lemma {:induction false} DataPartsAppend(ts: seq<Table>, t: Table, json: Json -> bytes)
    ensures DataParts(ts + [t], json) == DataParts(ts, json) + TableParts(t, json)
  {
    if ts == [] {
      assert ts + [t] == [t];
      assert [t][1..] == ts;
    } else {
      DataPartsAppend(ts[1..], t, json);
      assert (ts + [t])[0] == ts[0] && (ts + [t])[1..] == ts[1..] + [t];
      Associative(TableParts(ts[0], json), DataParts(ts[1..], json), TableParts(t, json));
    }
  }

  lemma TableStep(ts: seq<Table>, k: nat, json: Json -> bytes)
    requires k < |ts|
    ensures RowCount(ts[..k + 1]) == RowCount(ts[..k]) + |ts[k].rows| <= RowCount(ts)
    ensures DataParts(ts[..k + 1], json)
            == DataParts(ts[..k], json) + [json(Header(ts[k].name, |ts[k].rows|))]
               + Sort(EncodedRows(ts[k].rows, json), BytesLeq)
  {
    assert ts[..k + 1] == ts[..k] + [ts[k]] && ts[..k + 1][..k] == ts[..k];
    RowCountPrefix(ts, k + 1);
    DataPartsAppend(ts[..k], ts[k], json);
  }

  /** The walk over the tables, which gives up beyond the row limit. */
  method DatabaseParts(ts: seq<Table>, json: Json -> bytes) returns (r: Option<seq<bytes>>)
    ensures r.Some? <==> RowCount(ts) <= MAX_DATABASE_ROWS
    ensures r.Some? ==> r.value == DataParts(ts, json)
  {
    var parts: seq<bytes>, rowCount := [], 0;
    for k := 0 to |ts|
      invariant rowCount == RowCount(ts[..k]) <= MAX_DATABASE_ROWS
      invariant parts == DataParts(ts[..k], json)
    {
      var encoded := EncodedRows(ts[k].rows, json);
      TableStep(ts, k, json);
      rowCount := rowCount + |encoded|;
      if rowCount > MAX_DATABASE_ROWS {
        return None;
      }
      parts := parts + [json(Header(ts[k].name, |encoded|))];
      parts := parts + Sort(encoded, BytesLeq);
    }
    assert ts[..|ts|] == ts;
    return Some(parts);
  }
}
