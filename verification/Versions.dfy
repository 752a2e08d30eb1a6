/** Splitting and joining of texts. */
module Texts {

  /** The longest prefix whose characters satisfy `p`. */
  function Prefix(s: string, p: char -> bool): (r: string)
    ensures r <= s && (forall k :: 0 <= k < |r| ==> p(r[k]))
    ensures |r| < |s| ==> !p(s[|r|])
  {
    if s == [] || !p(s[0]) then [] else [s[0]] + Prefix(s[1..], p)
  }

  lemma {:induction false} PrefixOf(a: string, b: string, p: char -> bool)
    requires forall k :: 0 <= k < |a| ==> p(a[k])
    requires b == [] || !p(b[0])
    ensures Prefix(a + b, p) == a
  {
    if a == [] {
      assert a + b == b;
    } else {
      PrefixOf(a[1..], b, p);
      assert (a + b)[1..] == a[1..] + b;
      assert a == [a[0]] + a[1..];
    }
  }

  /** The pieces of `s` between separators, as Python's str.split(sep) gives them. */
  function Split(s: string, sep: char): (parts: seq<string>)
    ensures parts != []
  {
    if s == [] then [[]]
    else
      var rest := Split(s[1..], sep);
      if s[0] == sep then [[]] + rest else [[s[0]] + rest[0]] + rest[1..]
  }

  function Join(parts: seq<string>, sep: char): string
    requires parts != []
  {
    if |parts| == 1 then parts[0] else parts[0] + [sep] + Join(parts[1..], sep)
  }

  lemma {:induction false} JoinSplit(s: string, sep: char)
    ensures Join(Split(s, sep), sep) == s
    ensures forall p :: p in Split(s, sep) ==> sep !in p
  {
    if s != [] {
      JoinSplit(s[1..], sep);
      var rest := Split(s[1..], sep);
      var parts := Split(s, sep);
      assert s == [s[0]] + s[1..];
      if s[0] == sep {
        assert parts[1..] == rest;
      } else {
        assert parts[1..] == rest[1..];
        assert rest[0] in rest && forall p :: p in parts ==> p == parts[0] || p in rest;
        assert |rest| > 1 ==> [s[0]] + rest[0] + [sep] + Join(rest[1..], sep)
                              == [s[0]] + (rest[0] + [sep] + Join(rest[1..], sep));
      }
    }
  }

  /** Text before the first separator, then the separator and text `t`: splits off one part. */
  lemma {:induction false} SplitFirst(a: string, t: string, sep: char)
    requires sep !in a
    ensures Split(a + [sep] + t, sep) == [a] + Split(t, sep)
  {
    var s := a + [sep] + t;
    if a == [] {
      assert s[1..] == t && s[0] == sep;
    } else {
      SplitFirst(a[1..], t, sep);
      assert s[1..] == a[1..] + [sep] + t && s[0] == a[0];
      assert a[0] in a;
      assert a == [a[0]] + a[1..];
    }
  }

  lemma {:induction false} SplitNone(a: string, sep: char)
    requires sep !in a
    ensures Split(a, sep) == [a]
  {
    if a != [] {
      SplitNone(a[1..], sep);
      assert a[0] in a;
      assert a == [a[0]] + a[1..];
    }
  }

  lemma {:induction false} SplitJoin(parts: seq<string>, sep: char)
    requires parts != [] && forall p :: p in parts ==> sep !in p
    ensures Split(Join(parts, sep), sep) == parts
  {
    assert parts[0] in parts;
    if |parts| == 1 {
      SplitNone(parts[0], sep);
    } else {
      SplitJoin(parts[1..], sep);
      SplitFirst(parts[0], Join(parts[1..], sep), sep);
      assert parts == [parts[0]] + parts[1..];
    }
  }

  lemma {:induction false} JoinLacks(parts: seq<string>, sep: char, c: char)
    requires parts != [] && c != sep && forall p :: p in parts ==> c !in p
    ensures c !in Join(parts, sep)
  {
    assert parts[0] in parts;
    if |parts| > 1 {
      JoinLacks(parts[1..], sep, c);
    }
  }

  /** Gluing text between two joined lists merges the parts at the seam. */
  lemma {:induction false} JoinSeam(xs: seq<string>, ys: seq<string>, glue: string, sep: char)
    requires xs != [] && ys != []
    ensures Join(xs, sep) + glue + Join(ys, sep)
            == Join(xs[..|xs| - 1] + [xs[|xs| - 1] + glue + ys[0]] + ys[1..], sep)
  {
    var merged := xs[..|xs| - 1] + [xs[|xs| - 1] + glue + ys[0]] + ys[1..];
    if |xs| == 1 {
      assert merged[0] == xs[0] + glue + ys[0] && merged[1..] == ys[1..];
      if |ys| > 1 {
        assert xs[0] + glue + (ys[0] + [sep] + Join(ys[1..], sep))
            == (xs[0] + glue + ys[0]) + [sep] + Join(ys[1..], sep);
      }
    } else {
      JoinSeam(xs[1..], ys, glue, sep);
      assert merged[0] == xs[0];
      assert merged[1..] == xs[1..][..|xs| - 2] + [xs[|xs| - 1] + glue + ys[0]] + ys[1..];
      assert xs[0] + [sep] + Join(xs[1..], sep) + glue + Join(ys, sep)
          == xs[0] + [sep] + (Join(xs[1..], sep) + glue + Join(ys, sep));
    }
  }
}

/** Release versions: their grammar, their precedence and the npm spelling. */
module Versions {
  import opened Common
  import opened Decimal
  import opened Lexicographic
  import opened Texts

  // ------------------------------------------------------------------ grammar

  datatype Pre = Release | Rc(n: nat) | Ids(ids: seq<string>)

  datatype Version = Version(major: nat, minor: nat, patch: nat, pre: Pre, build: Option<seq<string>>)

  predicate Alphanumeric(c: char) {
    IsDigit(c) || 'A' <= c <= 'Z' || 'a' <= c <= 'z'
  }

  predicate Identifier(s: string) {
    s != [] && Alphanumeric(s[0]) && forall k :: 0 <= k < |s| ==> Alphanumeric(s[k]) || s[k] == '-'
  }

  predicate Identifiers(ids: seq<string>) {
    ids != [] && forall id :: id in ids ==> Identifier(id)
  }

  predicate GoodPre(pre: Pre) {
    (pre.Rc? ==> pre.n >= 1) && (pre.Ids? ==> Identifiers(pre.ids))
  }

  predicate WellFormed(v: Version) {
    GoodPre(v.pre) && (v.build.Some? ==> Identifiers(v.build.value))
  }

  datatype Core = Core(major: nat, minor: nat, patch: nat)

  function CoreText(c: Core): string {
    Numeral(c.major) + ['.'] + (Numeral(c.minor) + ['.'] + Numeral(c.patch))
  }

  function PreText(pre: Pre): string
    requires pre.Ids? ==> pre.ids != []
  {
    match pre
    case Release => ""
    case Rc(n) => "rc" + Numeral(n)
    case Ids(ids) => "-" + Join(ids, '.')
  }

  function BuildText(build: Option<seq<string>>): string
    requires build.Some? ==> build.value != []
  {
    if build.None? then "" else "+" + Join(build.value, '.')
  }

  function Show(v: Version): string
    requires WellFormed(v)
  {
    CoreText(Core(v.major, v.minor, v.patch)) + PreText(v.pre) + BuildText(v.build)
  }

  predicate CoreChar(c: char) {
    IsDigit(c) || c == '.'
  }

  function ParseIds(s: string): Option<seq<string>> {
    var ids := Split(s, '.');
    if Identifiers(ids) then Some(ids) else None
  }

  function ParseRc(digits: string): Option<Pre> {
    if Canonical(digits) && digits[0] != '0' then
      ValueRoundTrip(digits);
      Some(Rc(Value(digits)))
    else None
  }

  function ParsePre(s: string): Option<Pre> {
    if s == "" then Some(Release)
    else if s[0] == 'r' then (if |s| > 1 && s[1] == 'c' then ParseRc(s[2..]) else None)
    else if s[0] == '-' then
      var ids := ParseIds(s[1..]);
      if ids.Some? then Some(Ids(ids.value)) else None
    else None
  }

  function ParseCore(s: string): Option<Core> {
    var ns := Split(s, '.');
    if |ns| == 3 && Canonical(ns[0]) && Canonical(ns[1]) && Canonical(ns[2]) then
      ValueRoundTrip(ns[0]);
      ValueRoundTrip(ns[1]);
      ValueRoundTrip(ns[2]);
      Some(Core(Value(ns[0]), Value(ns[1]), Value(ns[2])))
    else None
  }

  /** The text before the build metadata. */
  function ParseLeft(s: string): Option<(Core, Pre)> {
    var digits := Prefix(s, CoreChar);
    var core, pre := ParseCore(digits), ParsePre(s[|digits|..]);
    if core.Some? && pre.Some? then Some((core.value, pre.value)) else None
  }

  /** The version pattern, matched against the whole text. */
  function Parse(s: string): Option<Version> {
    var halves := Split(s, '+');
    var left := ParseLeft(halves[0]);
    if left.None? || |halves| > 2 then None
    else
      var (core, pre) := left.value;
      if |halves| == 1 then Some(Version(core.major, core.minor, core.patch, pre, None))
      else
        var build := ParseIds(halves[1]);
        if build.None? then None else Some(Version(core.major, core.minor, core.patch, pre, build))
  }

  lemma NumeralChars(n: nat)
    ensures Canonical(Numeral(n)) && Value(Numeral(n)) == n
    ensures '.' !in Numeral(n) && '+' !in Numeral(n) && '-' !in Numeral(n)
  {
    NumeralRoundTrip(n);
  }

  lemma IdentifierChars(ids: seq<string>)
    requires Identifiers(ids)
    ensures forall id :: id in ids ==> '.' !in id && '+' !in id
    ensures '+' !in Join(ids, '.')
  {
    JoinLacks(ids, '.', '+');
  }

  lemma IdsParse(ids: seq<string>)
    requires Identifiers(ids)
    ensures ParseIds(Join(ids, '.')) == Some(ids)
  {
    IdentifierChars(ids);
    SplitJoin(ids, '.');
  }

  lemma CoreParses(c: Core)
    ensures ParseCore(CoreText(c)) == Some(c)
  {
    NumeralChars(c.major);
    NumeralChars(c.minor);
    NumeralChars(c.patch);
    SplitFirst(Numeral(c.major), Numeral(c.minor) + ['.'] + Numeral(c.patch), '.');
    SplitFirst(Numeral(c.minor), Numeral(c.patch), '.');
    SplitNone(Numeral(c.patch), '.');
    assert CoreText(c) == Numeral(c.major) + ['.'] + (Numeral(c.minor) + ['.'] + Numeral(c.patch));
  }

  lemma CoreChars(c: Core)
    ensures forall k :: 0 <= k < |CoreText(c)| ==> CoreChar(CoreText(c)[k])
    ensures '+' !in CoreText(c)
  {
    NumeralChars(c.major);
    NumeralChars(c.minor);
    NumeralChars(c.patch);
  }

  lemma PreParses(pre: Pre)
    requires GoodPre(pre)
    ensures ParsePre(PreText(pre)) == Some(pre)
  {
    match pre
    case Release =>
    case Rc(n) =>
      NumeralRoundTrip(n);
      assert PreText(pre)[2..] == Numeral(n);
    case Ids(ids) =>
      IdsParse(ids);
      assert PreText(pre)[1..] == Join(ids, '.');
  }

  lemma PreChars(pre: Pre)
    requires GoodPre(pre)
    ensures PreText(pre) == "" || !CoreChar(PreText(pre)[0])
    ensures '+' !in PreText(pre)
  {
    match pre
    case Release =>
    case Rc(n) => NumeralChars(n);
    case Ids(ids) => IdentifierChars(ids);
  }

  lemma LeftParses(c: Core, pre: Pre)
    requires GoodPre(pre)
    ensures ParseLeft(CoreText(c) + PreText(pre)) == Some((c, pre))
    ensures '+' !in CoreText(c) + PreText(pre)
  {
    CoreParses(c);
    CoreChars(c);
    PreParses(pre);
    PreChars(pre);
    PrefixOf(CoreText(c), PreText(pre), CoreChar);
    assert (CoreText(c) + PreText(pre))[|CoreText(c)|..] == PreText(pre);
  }

  /** Every well-formed version is parsed back from its text. */
  lemma ParseShow(v: Version)
    requires WellFormed(v)
    ensures Parse(Show(v)) == Some(v)
  {
    var left := CoreText(Core(v.major, v.minor, v.patch)) + PreText(v.pre);
    LeftParses(Core(v.major, v.minor, v.patch), v.pre);
    if v.build.None? {
      assert Show(v) == left;
      SplitNone(left, '+');
    } else {
      var build := Join(v.build.value, '.');
      IdentifierChars(v.build.value);
      IdsParse(v.build.value);
      assert Show(v) == left + ['+'] + build;
      SplitFirst(left, build, '+');
      SplitNone(build, '+');
    }
  }

  lemma ParsedPre(s: string)
    requires ParsePre(s).Some?
    ensures GoodPre(ParsePre(s).value) && PreText(ParsePre(s).value) == s
  {
    if s != "" && s[0] == 'r' {
      ValueRoundTrip(s[2..]);
      assert s == "rc" + s[2..];
    } else if s != "" {
      JoinSplit(s[1..], '.');
      assert s == "-" + s[1..];
    }
  }

  lemma ParsedCore(s: string)
    requires ParseCore(s).Some?
    ensures CoreText(ParseCore(s).value) == s
  {
    var ns := Split(s, '.');
    ValueRoundTrip(ns[0]);
    ValueRoundTrip(ns[1]);
    ValueRoundTrip(ns[2]);
    JoinSplit(s, '.');
    assert Join(ns, '.') == ns[0] + ['.'] + Join(ns[1..], '.');
    assert ns[1..][1..] == [ns[2]];
  }

  lemma ParsedLeft(s: string)
    requires ParseLeft(s).Some?
    ensures GoodPre(ParseLeft(s).value.1)
    ensures CoreText(ParseLeft(s).value.0) + PreText(ParseLeft(s).value.1) == s
  {
    var digits := Prefix(s, CoreChar);
    ParsedCore(digits);
    ParsedPre(s[|digits|..]);
    assert s == digits + s[|digits|..];
  }

  lemma Reassembled(s: string)
    ensures |Split(s, '+')| == 1 ==> s == Split(s, '+')[0]
    ensures |Split(s, '+')| == 2 ==> s == Split(s, '+')[0] + (['+'] + Split(s, '+')[1])
  {
    var halves := Split(s, '+');
    JoinSplit(s, '+');
    if |halves| == 2 {
      assert halves[1..] == [halves[1]];
      assert Join(halves[1..], '+') == halves[1];
    }
  }

  lemma ParsedIds(s: string)
    requires ParseIds(s).Some?
    ensures Identifiers(ParseIds(s).value) && Join(ParseIds(s).value, '.') == s
  {
    JoinSplit(s, '.');
  }

  /** Only the text of a well-formed version is parsed. */
  lemma ShowParse(s: string)
    requires Parse(s).Some?
    ensures WellFormed(Parse(s).value) && Show(Parse(s).value) == s
  {
    var halves := Split(s, '+');
    Reassembled(s);
    ParsedLeft(halves[0]);
    if |halves| == 2 {
      ParsedIds(halves[1]);
    }
  }

  // What the pattern accepts, told by characters and numbers.

  /** A digit or an ASCII letter, by its code. */
  predicate Listed(c: char) {
    48 <= c as int <= 57 || 65 <= c as int <= 90 || 97 <= c as int <= 122
  }

  /** Not empty, no leading hyphen, and otherwise digits, letters and hyphens. */
  predicate Spelled(id: string) {
    id != "" && id[0] != '-' && forall k :: 0 <= k < |id| ==> Listed(id[k]) || id[k] == '-'
  }

  lemma IdentifierExactly(id: string)
    ensures Identifier(id) <==> Spelled(id)
  {
  }

  lemma PlainParse(s: string)
    requires '+' !in s
    ensures Parse(s).Some? <==> ParseLeft(s).Some?
  {
    SplitNone(s, '+');
  }

  lemma LeftOf(c: Core, rest: string)
    requires rest != "" ==> !CoreChar(rest[0])
    ensures ParseLeft(CoreText(c) + rest).Some? <==> ParsePre(rest).Some?
  {
    CoreParses(c);
    CoreChars(c);
    PrefixOf(CoreText(c), rest, CoreChar);
    assert (CoreText(c) + rest)[|CoreText(c)|..] == rest;
  }

  lemma IdsExactly(ids: seq<string>)
    requires ids != [] && forall id :: id in ids ==> '.' !in id
    ensures ParsePre("-" + Join(ids, '.')).Some? <==> forall id :: id in ids ==> Spelled(id)
  {
    var rest := "-" + Join(ids, '.');
    SplitJoin(ids, '.');
    assert rest[1..] == Join(ids, '.');
    forall id | id in ids
      ensures Identifier(id) <==> Spelled(id)
    {
      IdentifierExactly(id);
    }
  }

  /** Prerelease identifiers are accepted exactly when each of them has the right characters. */
  lemma PrereleaseExactly(c: Core, ids: seq<string>)
    requires ids != [] && forall id :: id in ids ==> '.' !in id && '+' !in id
    ensures Parse(CoreText(c) + ("-" + Join(ids, '.'))).Some? <==> forall id :: id in ids ==> Spelled(id)
  {
    CoreChars(c);
    JoinLacks(ids, '.', '+');
    PlainParse(CoreText(c) + ("-" + Join(ids, '.')));
    LeftOf(c, "-" + Join(ids, '.'));
    IdsExactly(ids);
  }

  /** A candidate number is accepted exactly when it is the numeral of a positive number. */
  lemma CandidateNumberExactly(c: Core, digits: string)
    requires '+' !in digits
    ensures Parse(CoreText(c) + ("rc" + digits)).Some? <==> exists n: nat :: n >= 1 && digits == Numeral(n)
  {
    var rest := "rc" + digits;
    CoreChars(c);
    PlainParse(CoreText(c) + rest);
    LeftOf(c, rest);
    assert rest[2..] == digits;
    if ParseRc(digits).Some? {
      ValueRoundTrip(digits);
      var n: nat := Value(digits);
      assert n >= 1 && digits == Numeral(n);
    }
    forall n: nat | n >= 1 && digits == Numeral(n)
      ensures ParseRc(digits).Some?
    {
      NumeralRoundTrip(n);
    }
  }

  lemma CorePartsExactly(a: string, b: string, c: string)
    requires Digits(a) && Digits(b) && Digits(c)
    ensures ParseCore(a + ['.'] + (b + ['.'] + c)).Some? <==> Canonical(a) && Canonical(b) && Canonical(c)
  {
    SplitFirst(a, b + ['.'] + c, '.');
    SplitFirst(b, c, '.');
    SplitNone(c, '.');
  }

  lemma CoreOnly(s: string)
    requires forall k :: 0 <= k < |s| ==> CoreChar(s[k])
    ensures ParseLeft(s).Some? <==> ParseCore(s).Some?
  {
    PrefixOf(s, "", CoreChar);
    assert s + "" == s && s[|s|..] == "";
  }

  /** Three numbers are accepted exactly when each is the numeral of a natural number. */
  lemma CoreNumbersExactly(a: string, b: string, c: string)
    requires Digits(a) && Digits(b) && Digits(c)
    ensures Parse(a + ['.'] + (b + ['.'] + c)).Some? <==>
            && (exists n: nat :: a == Numeral(n)) && (exists n: nat :: b == Numeral(n))
            && (exists n: nat :: c == Numeral(n))
  {
    var s := a + ['.'] + (b + ['.'] + c);
    PlainParse(s);
    CoreOnly(s);
    CorePartsExactly(a, b, c);
    CanonicalExactly(a);
    CanonicalExactly(b);
    CanonicalExactly(c);
  }

  // --------------------------------------------------------------- precedence

  /** Entries of the precedence tuple; numbers and words are never compared with each other. */
  datatype Scalar = Number(n: int) | Word(s: string)

  datatype Ident = Ident(tag: nat, value: Scalar)

  datatype Key = Key(major: nat, minor: nat, patch: nat, flag: nat, ids: seq<Ident>)

  /** The prerelease identifiers, with rcN read as rc.N. */
  function Identified(pre: Pre): seq<string> {
    match pre
    case Release => []
    case Rc(n) => ["rc", Numeral(n)]
    case Ids(ids) => ids
  }

  predicate Admissible(id: string) {
    Digits(id) ==> Canonical(id)
  }

  /** Well-formed, and without leading zeros in numeric prerelease identifiers. */
  predicate Valid(v: Version) {
    WellFormed(v) && forall id :: id in Identified(v.pre) ==> Admissible(id)
  }

  function IdentOf(id: string): Ident {
    if Digits(id) then Ident(0, Number(Value(id))) else Ident(1, Word(id))
  }

  function IdentsOf(ids: seq<string>): seq<Ident> {
    seq(|ids|, k requires 0 <= k < |ids| => IdentOf(ids[k]))
  }

  function KeyOf(v: Version): Key {
    Key(v.major, v.minor, v.patch, if v.pre.Release? then 1 else 0, IdentsOf(Identified(v.pre)))
  }

  function Precedence(s: string): Option<Key> {
    var v := Parse(s);
    if v.Some? && Valid(v.value) then Some(KeyOf(v.value)) else None
  }

  /** The precedence of a version text; None for every invalid one. */
  method VersionPrecedence(s: string) returns (r: Option<Key>)
    ensures r == Precedence(s)
  {
    var parsed := Parse(s);
    if parsed.None? {
      return None;
    }
    var v := parsed.value;
    ShowParse(s);
    if v.pre.Release? {
      assert IdentsOf(Identified(v.pre)) == [];
      return Some(Key(v.major, v.minor, v.patch, 1, []));
    }
    forall id | id in Identified(v.pre)
      ensures id != ""
    {
      RawNonempty(v.pre, id);
    }
    var identifiers := ReadIdentifiers(Identified(v.pre));
    if identifiers.None? {
      return None;
    }
    return Some(Key(v.major, v.minor, v.patch, 0, identifiers.value));
  }

  /** The loop over the prerelease identifiers. */
  method ReadIdentifiers(raw: seq<string>) returns (r: Option<seq<Ident>>)
    requires forall id :: id in raw ==> id != ""
    ensures r.Some? <==> forall id :: id in raw ==> Admissible(id)
    ensures r.Some? ==> r.value == IdentsOf(raw)
  {
    var identifiers: seq<Ident> := [];
    for k := 0 to |raw|
      invariant identifiers == IdentsOf(raw[..k])
      invariant forall id :: id in raw[..k] ==> Admissible(id)
    {
      var id := raw[k];
      assert id in raw && raw[..k + 1] == raw[..k] + [id];
      if Digits(id) {
        if |id| > 1 && id[0] == '0' {
          assert !Admissible(id);
          return None;
        }
        identifiers := identifiers + [Ident(0, Number(Value(id)))];
      } else {
        identifiers := identifiers + [Ident(1, Word(id))];
      }
    }
    assert raw[..|raw|] == raw;
    return Some(identifiers);
  }

  lemma RawNonempty(pre: Pre, id: string)
    requires GoodPre(pre) && id in Identified(pre)
    ensures id != ""
  {
    if pre.Rc? {
      NumeralRoundTrip(pre.n);
    }
  }

  // Comparison of precedence tuples: the first difference decides, and a
  // proper prefix is smaller.

  predicate Kinded(i: Ident) {
    i.tag == if i.value.Number? then 0 else 1
  }

  predicate WellKeyed(k: Key) {
    forall j :: 0 <= j < |k.ids| ==> Kinded(k.ids[j])
  }

  predicate ScalarLess(x: Scalar, y: Scalar)
    requires x.Number? <==> y.Number?
  {
    if x.Number? then x.n < y.n else Less(x.s, y.s, CharCode)
  }

  predicate IdentLess(x: Ident, y: Ident)
    requires Kinded(x) && Kinded(y)
  {
    if x.tag != y.tag then x.tag < y.tag else ScalarLess(x.value, y.value)
  }

  predicate IdentsLess(xs: seq<Ident>, ys: seq<Ident>)
    requires forall j :: 0 <= j < |xs| ==> Kinded(xs[j])
    requires forall j :: 0 <= j < |ys| ==> Kinded(ys[j])
  {
    if xs == [] || ys == [] then ys != []
    else if xs[0] != ys[0] then IdentLess(xs[0], ys[0])
    else IdentsLess(xs[1..], ys[1..])
  }

  predicate KeyLess(a: Key, b: Key)
    requires WellKeyed(a) && WellKeyed(b)
  {
    if a.major != b.major then a.major < b.major
    else if a.minor != b.minor then a.minor < b.minor
    else if a.patch != b.patch then a.patch < b.patch
    else if a.flag != b.flag then a.flag < b.flag
    else IdentsLess(a.ids, b.ids)
  }

  /** Comparing precedences never compares a number with a word. */
  lemma PrecedenceKinded(s: string)
    requires Precedence(s).Some?
    ensures WellKeyed(Precedence(s).value)
  {
    var v := Parse(s).value;
    var raw := Identified(v.pre);
    forall j | 0 <= j < |raw|
      ensures Kinded(IdentsOf(raw)[j])
    {
    }
  }

  lemma IdentTrichotomy(x: Ident, y: Ident)
    requires Kinded(x) && Kinded(y) && x != y
    ensures IdentLess(x, y) <==> !IdentLess(y, x)
  {
    if x.value.Word? && y.value.Word? {
      WordTrichotomy(x.value.s, y.value.s);
    }
  }

  lemma WordTrichotomy(s: string, t: string)
    requires s != t
    ensures Less(s, t, CharCode) <==> !Less(t, s, CharCode)
  {
    Total(s, t, CharCode);
    if Leq(s, t, CharCode) && Leq(t, s, CharCode) {
      Antisym(s, t, CharCode);
    }
  }

  lemma IdentTransitive(x: Ident, y: Ident, z: Ident)
    requires Kinded(x) && Kinded(y) && Kinded(z)
    requires IdentLess(x, y) && IdentLess(y, z)
    ensures IdentLess(x, z)
  {
    if x.value.Word? && y.value.Word? && z.value.Word? {
      WordTransitive(x.value.s, y.value.s, z.value.s);
    }
  }

  lemma WordTransitive(s: string, t: string, u: string)
    requires Less(s, t, CharCode) && Less(t, u, CharCode)
    ensures Less(s, u, CharCode)
  {
    Total(s, t, CharCode);
    if Leq(u, s, CharCode) {
      Transitive(u, s, t, CharCode);
    }
  }

  lemma {:induction false} IdentsTrichotomy(xs: seq<Ident>, ys: seq<Ident>)
    requires forall j :: 0 <= j < |xs| ==> Kinded(xs[j])
    requires forall j :: 0 <= j < |ys| ==> Kinded(ys[j])
    ensures xs != ys ==> (IdentsLess(xs, ys) <==> !IdentsLess(ys, xs))
    ensures xs == ys ==> !IdentsLess(xs, ys)
  {
    if xs != [] && ys != [] {
      if xs[0] != ys[0] {
        IdentTrichotomy(xs[0], ys[0]);
      } else {
        IdentsTrichotomy(xs[1..], ys[1..]);
        assert xs == [xs[0]] + xs[1..] && ys == [ys[0]] + ys[1..];
      }
    }
  }

  lemma {:induction false} IdentsTransitive(xs: seq<Ident>, ys: seq<Ident>, zs: seq<Ident>)
    requires forall j :: 0 <= j < |xs| ==> Kinded(xs[j])
    requires forall j :: 0 <= j < |ys| ==> Kinded(ys[j])
    requires forall j :: 0 <= j < |zs| ==> Kinded(zs[j])
    requires IdentsLess(xs, ys) && IdentsLess(ys, zs)
    ensures IdentsLess(xs, zs)
  {
    if xs != [] {
      if xs[0] == ys[0] == zs[0] {
        IdentsTransitive(xs[1..], ys[1..], zs[1..]);
      } else if xs[0] != ys[0] && ys[0] != zs[0] {
        IdentTransitive(xs[0], ys[0], zs[0]);
        IdentTrichotomy(xs[0], ys[0]);
      }
    }
  }

  /** Precedence is a strict linear order on keys: exactly one of less, equal, greater. */
  lemma KeyTrichotomy(a: Key, b: Key)
    requires WellKeyed(a) && WellKeyed(b)
    ensures a != b ==> (KeyLess(a, b) <==> !KeyLess(b, a))
    ensures a == b ==> !KeyLess(a, b)
  {
    IdentsTrichotomy(a.ids, b.ids);
  }

  lemma KeyTransitive(a: Key, b: Key, c: Key)
    requires WellKeyed(a) && WellKeyed(b) && WellKeyed(c)
    requires KeyLess(a, b) && KeyLess(b, c)
    ensures KeyLess(a, c)
  {
    if a.major == b.major == c.major && a.minor == b.minor == c.minor && a.patch == b.patch == c.patch
       && a.flag == b.flag == c.flag {
      IdentsTransitive(a.ids, b.ids, c.ids);
    }
  }

  // ------------------------------- section 11 of Semantic Versioning 2.0.0

  /** Items 11.4.1 to 11.4.3. */
  predicate LowerIdentifier(a: string, b: string) {
    if Digits(a) && Digits(b) then Value(a) < Value(b)
    else if Digits(a) || Digits(b) then Digits(a)
    else Less(a, b, CharCode)
  }

  /** The lists agree before position `k` and the first is lower there (11.4, 11.4.4). */
  predicate DecidedAt(xs: seq<string>, ys: seq<string>, k: nat) {
    && k <= |xs| && k < |ys| && xs[..k] == ys[..k]
    && (k < |xs| ==> xs[k] != ys[k] && LowerIdentifier(xs[k], ys[k]))
  }

  ghost predicate LowerIdentifiers(xs: seq<string>, ys: seq<string>) {
    exists k: nat :: DecidedAt(xs, ys, k)
  }

  predicate SameCore(v: Version, w: Version) {
    v.major == w.major && v.minor == w.minor && v.patch == w.patch
  }

  /** Item 11.2. */
  predicate LowerCore(v: Version, w: Version) {
    || v.major < w.major
    || (v.major == w.major && v.minor < w.minor)
    || (v.major == w.major && v.minor == w.minor && v.patch < w.patch)
  }

  /** Items 11.2 to 11.4; build metadata plays no part (item 10). */
  ghost predicate Lower(v: Version, w: Version) {
    || LowerCore(v, w)
    || (SameCore(v, w) && !v.pre.Release? && w.pre.Release?)
    || (SameCore(v, w) && !v.pre.Release? && !w.pre.Release?
        && LowerIdentifiers(Identified(v.pre), Identified(w.pre)))
  }

  lemma {:induction false} IdentsLessMeaning(xs: seq<string>, ys: seq<string>)
    requires forall id :: id in xs + ys ==> Admissible(id) && id != ""
    ensures forall j :: 0 <= j < |xs| ==> Kinded(IdentsOf(xs)[j])
    ensures forall j :: 0 <= j < |ys| ==> Kinded(IdentsOf(ys)[j])
    ensures IdentsLess(IdentsOf(xs), IdentsOf(ys)) <==> LowerIdentifiers(xs, ys)
  {
    if xs == [] || ys == [] {
      DecidedAtOnce(xs, ys);
    } else {
      assert xs[0] in xs + ys && ys[0] in xs + ys;
      IdentMeaning(xs[0], ys[0]);
      assert IdentsOf(xs)[1..] == IdentsOf(xs[1..]) && IdentsOf(ys)[1..] == IdentsOf(ys[1..]);
      IdentsLessMeaning(xs[1..], ys[1..]);
      DecidedLater(xs, ys);
    }
  }

  lemma IdentMeaning(a: string, b: string)
    requires Admissible(a) && Admissible(b) && a != "" && b != ""
    ensures IdentOf(a) == IdentOf(b) <==> a == b
    ensures IdentLess(IdentOf(a), IdentOf(b)) <==> LowerIdentifier(a, b)
  {
    if Digits(a) && Digits(b) && Value(a) == Value(b) {
      ValueInjective(a, b);
    }
  }

  lemma DecidedAtOnce(xs: seq<string>, ys: seq<string>)
    requires xs == [] || ys == []
    ensures LowerIdentifiers(xs, ys) <==> ys != []
  {
    if ys != [] {
      assert DecidedAt(xs, ys, 0);
    }
  }

  lemma DecidedHead(xs: seq<string>, ys: seq<string>, k: nat)
    requires xs != [] && ys != [] && DecidedAt(xs, ys, k)
    ensures k > 0 ==> xs[0] == ys[0]
  {
    if k > 0 {
      assert xs[0] == xs[..k][0] && ys[0] == ys[..k][0];
    }
  }

  lemma DecidedLater(xs: seq<string>, ys: seq<string>)
    requires xs != [] && ys != []
    ensures LowerIdentifiers(xs, ys) <==>
            if xs[0] != ys[0] then LowerIdentifier(xs[0], ys[0]) else LowerIdentifiers(xs[1..], ys[1..])
  {
    if xs[0] != ys[0] {
      if LowerIdentifier(xs[0], ys[0]) {
        assert DecidedAt(xs, ys, 0);
      }
      forall k: nat | DecidedAt(xs, ys, k)
        ensures LowerIdentifier(xs[0], ys[0])
      {
        DecidedHead(xs, ys, k);
      }
    } else {
      forall k: nat | DecidedAt(xs, ys, k)
        ensures LowerIdentifiers(xs[1..], ys[1..])
      {
        DecidedShift(xs, ys, k);
        assert DecidedAt(xs[1..], ys[1..], k - 1);
      }
      forall k: nat | DecidedAt(xs[1..], ys[1..], k)
        ensures LowerIdentifiers(xs, ys)
      {
        DecidedShift(xs, ys, k + 1);
        assert DecidedAt(xs, ys, k + 1);
      }
    }
  }

  lemma DecidedShift(xs: seq<string>, ys: seq<string>, k: nat)
    requires xs != [] && ys != [] && xs[0] == ys[0]
    ensures DecidedAt(xs, ys, k) <==> k > 0 && DecidedAt(xs[1..], ys[1..], k - 1)
  {
    if 0 < k <= |xs| && k <= |ys| {
      PrefixShift(xs, ys, k);
      assert k < |xs| ==> xs[1..][k - 1] == xs[k];
      assert k < |ys| ==> ys[1..][k - 1] == ys[k];
    }
  }

  lemma PrefixShift(xs: seq<string>, ys: seq<string>, k: nat)
    requires xs != [] && ys != [] && xs[0] == ys[0] && 0 < k <= |xs| && k <= |ys|
    ensures xs[..k] == ys[..k] <==> xs[1..][..k - 1] == ys[1..][..k - 1]
  {
    assert xs[1..][..k - 1] == xs[..k][1..] && ys[1..][..k - 1] == ys[..k][1..];
    assert xs[..k] == [xs[0]] + xs[1..][..k - 1] && ys[..k] == [ys[0]] + ys[1..][..k - 1];
  }

  lemma AdmissibleIds(v: Version, id: string)
    requires Valid(v) && id in Identified(v.pre)
    ensures Admissible(id) && id != ""
  {
    RawNonempty(v.pre, id);
  }

  /** The precedence, read off the text: three numbers, and nothing, a candidate number or identifiers. */
  lemma PrecedenceOfText(a: nat, b: nat, c: nat, n: nat, ids: seq<string>)
    requires n >= 1 && Identifiers(ids) && forall id :: id in ids ==> Admissible(id)
    ensures var core := Numeral(a) + ['.'] + (Numeral(b) + ['.'] + Numeral(c));
            && Precedence(core + "" + "") == Some(Key(a, b, c, 1, []))
            && Precedence(core + ("rc" + Numeral(n)) + "") == Some(Key(a, b, c, 0, IdentsOf(["rc", Numeral(n)])))
            && Precedence(core + ("-" + Join(ids, '.')) + "") == Some(Key(a, b, c, 0, IdentsOf(ids)))
  {
    var release, candidate := Version(a, b, c, Release, None), Version(a, b, c, Rc(n), None);
    var prerelease := Version(a, b, c, Ids(ids), None);
    NumeralRoundTrip(n);
    ParseShow(release);
    ParseShow(candidate);
    ParseShow(prerelease);
    assert IdentsOf([]) == [];
  }

  /** Build metadata does not count. */
  lemma BuildIgnored(v: Version, build: seq<string>)
    requires Valid(v) && v.build.None? && Identifiers(build)
    ensures Precedence(Show(v) + ("+" + Join(build, '.'))) == Precedence(Show(v)) == Some(KeyOf(v))
  {
    var w := v.(build := Some(build));
    ParseShow(v);
    ParseShow(w);
    assert Show(v) == CoreText(Core(v.major, v.minor, v.patch)) + PreText(v.pre);
  }

  /** A numeric prerelease identifier with a leading zero makes a version invalid. */
  lemma LeadingZeroRefused(v: Version, id: string)
    requires WellFormed(v) && v.pre.Ids? && id in v.pre.ids
    requires |id| > 1 && id[0] == '0' && forall k :: 0 <= k < |id| ==> '0' <= id[k] <= '9'
    ensures Precedence(Show(v)).None?
  {
    ParseShow(v);
    assert !Admissible(id);
  }

  /** The tuples compare as Semantic Versioning orders the versions. */
  lemma PrecedenceIsSemVer(v: Version, w: Version)
    requires Valid(v) && Valid(w)
    ensures WellKeyed(KeyOf(v)) && WellKeyed(KeyOf(w))
    ensures KeyLess(KeyOf(v), KeyOf(w)) <==> Lower(v, w)
  {
    var xs, ys := Identified(v.pre), Identified(w.pre);
    forall id | id in xs + ys
      ensures Admissible(id) && id != ""
    {
      AdmissibleIds(if id in xs then v else w, id);
    }
    IdentsLessMeaning(xs, ys);
  }

  /** What precedence keeps of a version: no build metadata, and rcN spelled rc.N. */
  function Normal(v: Version): Version {
    v.(build := None, pre := if v.pre.Rc? then Ids(["rc", Numeral(v.pre.n)]) else v.pre)
  }

  lemma {:induction false} IdentsInjective(xs: seq<string>, ys: seq<string>)
    requires forall id :: id in xs + ys ==> Admissible(id) && id != ""
    requires IdentsOf(xs) == IdentsOf(ys)
    ensures xs == ys
  {
    assert |xs| == |IdentsOf(xs)| == |ys|;
    forall k | 0 <= k < |xs|
      ensures xs[k] == ys[k]
    {
      assert xs[k] in xs + ys && ys[k] in xs + ys;
      assert IdentsOf(xs)[k] == IdentOf(xs[k]) && IdentsOf(ys)[k] == IdentOf(ys[k]);
      IdentMeaning(xs[k], ys[k]);
    }
  }

  /** Two versions tie exactly when they differ at most in build metadata and in the spelling of rc. */
  lemma TieExactly(v: Version, w: Version)
    requires Valid(v) && Valid(w)
    ensures KeyOf(v) == KeyOf(w) <==> Normal(v) == Normal(w)
  {
    var xs, ys := Identified(v.pre), Identified(w.pre);
    if KeyOf(v) == KeyOf(w) {
      forall id | id in xs + ys
        ensures Admissible(id) && id != ""
      {
        AdmissibleIds(if id in xs then v else w, id);
      }
      IdentsInjective(xs, ys);
    }
    if Normal(v) == Normal(w) {
      assert Identified(Normal(v).pre) == xs && Identified(Normal(w).pre) == ys;
    }
  }

  // --------------------------------------------------------------- npm spelling

  function Replace(s: string, from: char, to: char): (r: string)
    ensures |r| == |s|
    ensures forall k :: 0 <= k < |s| ==> r[k] == if s[k] == from then to else s[k]
  {
    if s == [] then [] else [if s[0] == from then to else s[0]] + Replace(s[1..], from, to)
  }

  /** A core and a candidate number, where the text has that shape. */
  function MatchRc(s: string): Option<(string, string)> {
    var core := Prefix(s, CoreChar);
    var rest, ns := s[|core|..], Split(core, '.');
    if |ns| == 3 && ns[0] != "" && ns[1] != "" && ns[2] != "" && Candidate(rest)
    then Some((core, rest[2..])) else None
  }

  predicate Candidate(rest: string) {
    |rest| > 2 && rest[0] == 'r' && rest[1] == 'c' && Digits(rest[2..])
  }

  function NpmVersion(s: string): string {
    var m := MatchRc(s);
    if m.Some? then m.value.0 + "-rc." + m.value.1 else Replace(s, '+', '-')
  }

  lemma CoreOf(v: Version)
    requires WellFormed(v)
    ensures Prefix(Show(v), CoreChar) == CoreText(Core(v.major, v.minor, v.patch))
    ensures Show(v) == CoreText(Core(v.major, v.minor, v.patch)) + (PreText(v.pre) + BuildText(v.build))
  {
    var core, rest := CoreText(Core(v.major, v.minor, v.patch)), PreText(v.pre) + BuildText(v.build);
    CoreChars(Core(v.major, v.minor, v.patch));
    PreChars(v.pre);
    assert rest == [] || !CoreChar(rest[0]);
    PrefixOf(core, rest, CoreChar);
    assert Show(v) == core + rest;
  }

  lemma CoreSplits(c: Core)
    ensures Split(CoreText(c), '.') == [Numeral(c.major), Numeral(c.minor), Numeral(c.patch)]
    ensures Numeral(c.major) != "" && Numeral(c.minor) != "" && Numeral(c.patch) != ""
  {
    NumeralChars(c.major);
    NumeralChars(c.minor);
    NumeralChars(c.patch);
    SplitFirst(Numeral(c.major), Numeral(c.minor) + ['.'] + Numeral(c.patch), '.');
    SplitFirst(Numeral(c.minor), Numeral(c.patch), '.');
    SplitNone(Numeral(c.patch), '.');
    assert CoreText(c) == Numeral(c.major) + ['.'] + (Numeral(c.minor) + ['.'] + Numeral(c.patch));
  }

  lemma RcCandidate(digits: string, tail: string)
    requires digits != "" && Digits(digits) && (tail != "" ==> tail[0] == '+')
    ensures Candidate("rc" + digits + tail) <==> tail == ""
    ensures ("rc" + digits + tail)[2..] == digits + tail
  {
    assert ("rc" + digits + tail)[2..] == digits + tail;
    if tail != "" {
      assert (digits + tail)[|digits|] == '+';
    }
  }

  lemma CandidateExactly(pre: Pre, build: Option<seq<string>>)
    requires GoodPre(pre) && (build.Some? ==> Identifiers(build.value))
    ensures Candidate(PreText(pre) + BuildText(build)) <==> pre.Rc? && build.None?
    ensures pre.Rc? && build.None? ==> (PreText(pre) + BuildText(build))[2..] == Numeral(pre.n)
  {
    if pre.Rc? {
      NumeralRoundTrip(pre.n);
      RcCandidate(Numeral(pre.n), BuildText(build));
    } else {
      PreBeginning(pre, BuildText(build));
    }
  }

  lemma PreBeginning(pre: Pre, tail: string)
    requires GoodPre(pre) && !pre.Rc? && (tail != "" ==> tail[0] == '+')
    ensures PreText(pre) + tail == "" || (PreText(pre) + tail)[0] in "-+"
  {
  }

  /** The candidate pattern applies exactly to candidates without build metadata. */
  lemma MatchRcExactly(v: Version)
    requires WellFormed(v)
    ensures MatchRc(Show(v)).Some? <==> v.pre.Rc? && v.build.None?
    ensures v.pre.Rc? && v.build.None? ==>
            MatchRc(Show(v)) == Some((CoreText(Core(v.major, v.minor, v.patch)), Numeral(v.pre.n)))
  {
    var c, rest := Core(v.major, v.minor, v.patch), PreText(v.pre) + BuildText(v.build);
    CoreOf(v);
    CoreSplits(c);
    CandidateExactly(v.pre, v.build);
    assert (CoreText(c) + rest)[|CoreText(c)|..] == rest;
  }

  lemma ReplaceNone(s: string)
    requires '+' !in s
    ensures Replace(s, '+', '-') == s
  {
  }

  lemma ReplaceOne(a: string, b: string)
    requires '+' !in a && '+' !in b
    ensures Replace(a + ['+'] + b, '+', '-') == a + ['-'] + b
  {
    var s := a + ['+'] + b;
    forall k | 0 <= k < |s|
      ensures Replace(s, '+', '-')[k] == (a + ['-'] + b)[k]
    {
      assert k < |a| ==> a[k] in a;
      assert k > |a| ==> b[k - |a| - 1] in b;
    }
  }

  lemma RcSpelled(digits: string)
    ensures "-" + Join(["rc", digits], '.') == "-rc." + digits
  {
    assert ["rc", digits][1..] == [digits];
    assert Join(["rc", digits], '.') == "rc" + ['.'] + Join([digits], '.');
  }

  lemma RcIdentifiers(n: nat)
    ensures Identifiers(["rc", Numeral(n)])
  {
    NumeralChars(n);
  }

  lemma RcTexts(core: string, digits: string)
    ensures core + ("-" + Join(["rc", digits], '.')) + "" == core + "-rc." + digits
  {
    RcSpelled(digits);
    assert core + ("-rc." + digits) + "" == core + "-rc." + digits;
  }

  lemma ShowNormalRc(v: Version)
    requires WellFormed(v) && v.pre.Rc?
    ensures WellFormed(Normal(v))
    ensures Show(Normal(v)) == CoreText(Core(v.major, v.minor, v.patch)) + "-rc." + Numeral(v.pre.n)
  {
    RcIdentifiers(v.pre.n);
    RcTexts(CoreText(Core(v.major, v.minor, v.patch)), Numeral(v.pre.n));
  }

  lemma NpmRc(v: Version)
    requires WellFormed(v) && v.pre.Rc? && v.build.None?
    ensures WellFormed(Normal(v)) && NpmVersion(Show(v)) == Show(Normal(v))
  {
    MatchRcExactly(v);
    ShowNormalRc(v);
  }

  lemma NpmSame(v: Version)
    requires WellFormed(v) && !v.pre.Rc? && v.build.None?
    ensures NpmVersion(Show(v)) == Show(v)
  {
    MatchRcExactly(v);
    LeftParses(Core(v.major, v.minor, v.patch), v.pre);
    assert Show(v) == CoreText(Core(v.major, v.minor, v.patch)) + PreText(v.pre);
    ReplaceNone(Show(v));
  }

  lemma NpmBuild(v: Version)
    requires WellFormed(v) && v.build.Some?
    ensures NpmVersion(Show(v))
            == CoreText(Core(v.major, v.minor, v.patch)) + PreText(v.pre) + ['-'] + Join(v.build.value, '.')
  {
    MatchRcExactly(v);
    var left := CoreText(Core(v.major, v.minor, v.patch)) + PreText(v.pre);
    LeftParses(Core(v.major, v.minor, v.patch), v.pre);
    IdentifierChars(v.build.value);
    assert Show(v) == left + ['+'] + Join(v.build.value, '.');
    ReplaceOne(left, Join(v.build.value, '.'));
  }

  /** A release with build metadata is spelled as a prerelease. */
  lemma NpmBuiltRelease(v: Version)
    requires Valid(v) && v.pre.Release? && v.build.Some?
    ensures Precedence(NpmVersion(Show(v))) != Some(KeyOf(v))
  {
    NpmReleaseText(v);
    ParseShow(v.(pre := Ids(v.build.value), build := None));
  }

  /** The identifiers of a prerelease and of its build metadata, joined by the npm spelling. */
  function Merged(xs: seq<string>, ys: seq<string>): seq<string>
    requires xs != [] && ys != []
  {
    xs[..|xs| - 1] + [xs[|xs| - 1] + "-" + ys[0]] + ys[1..]
  }

  lemma MergedText(core: string, xs: seq<string>, ys: seq<string>)
    requires xs != [] && ys != []
    ensures core + ("-" + Join(xs, '.')) + ['-'] + Join(ys, '.') == core + ("-" + Join(Merged(xs, ys), '.')) + ""
  {
    JoinSeam(xs, ys, "-", '.');
    assert core + ("-" + Join(xs, '.')) + ['-'] + Join(ys, '.')
        == core + ("-" + (Join(xs, '.') + "-" + Join(ys, '.'))) + "";
  }

  lemma MergedDiffers(xs: seq<string>, ys: seq<string>)
    requires xs != [] && ys != []
    ensures IdentsOf(Merged(xs, ys)) != IdentsOf(xs)
  {
    var last, glued := xs[|xs| - 1], xs[|xs| - 1] + "-" + ys[0];
    assert Merged(xs, ys)[|xs| - 1] == glued && glued[|last|] == '-';
    assert IdentsOf(Merged(xs, ys))[|xs| - 1] == IdentOf(glued) == Ident(1, Word(glued));
    assert IdentsOf(xs)[|xs| - 1] == IdentOf(last);
  }

  /** A prerelease with build metadata has its last identifier extended. */
  lemma NpmBuiltIds(v: Version)
    requires Valid(v) && v.pre.Ids? && v.build.Some?
    ensures Precedence(NpmVersion(Show(v))) != Some(KeyOf(v))
  {
    var xs, ys := v.pre.ids, v.build.value;
    var w := v.(pre := Ids(Merged(xs, ys)), build := None);
    NpmBuild(v);
    MergedIdentifiers(xs, ys);
    MergedText(CoreText(Core(v.major, v.minor, v.patch)), xs, ys);
    assert Show(w) == NpmVersion(Show(v));
    ParseShow(w);
    MergedDiffers(xs, ys);
  }

  lemma MergedIdentifiers(xs: seq<string>, ys: seq<string>)
    requires Identifiers(xs) && Identifiers(ys)
    ensures Identifiers(Merged(xs, ys))
  {
    var glued := xs[|xs| - 1] + "-" + ys[0];
    assert Identifier(xs[|xs| - 1]) && Identifier(ys[0]);
    assert Identifier(glued);
    forall id | id in xs[..|xs| - 1] + [glued] + ys[1..]
      ensures Identifier(id)
    {
      assert id in xs || id == glued || id in ys;
    }
  }

  lemma NotPre(digits: string, b: string)
    ensures ParsePre("rc" + digits + ['-'] + b).None?
    ensures !CoreChar(("rc" + digits + ['-'] + b)[0])
  {
    var rest := "rc" + digits + ['-'] + b;
    assert rest[2..][|digits|] == '-';
  }

  /** A candidate with build metadata becomes no version at all. */
  lemma NpmBuiltRc(v: Version)
    requires Valid(v) && v.pre.Rc? && v.build.Some?
    ensures Parse(NpmVersion(Show(v))).None?
  {
    NpmBuild(v);
    var core, digits, b := CoreText(Core(v.major, v.minor, v.patch)), Numeral(v.pre.n), Join(v.build.value, '.');
    var rest := "rc" + digits + ['-'] + b;
    var s := NpmVersion(Show(v));
    assert s == core + rest;
    NoBuildIn(v);
    SplitNone(s, '+');
    assert ParseLeft(s).None? by {
      CoreChars(Core(v.major, v.minor, v.patch));
      NotPre(digits, b);
      PrefixOf(core, rest, CoreChar);
      assert s[|core|..] == rest;
    }
  }

  lemma NoBuildIn(v: Version)
    requires WellFormed(v) && v.build.Some?
    ensures '+' !in NpmVersion(Show(v))
  {
    NpmBuild(v);
    CoreChars(Core(v.major, v.minor, v.patch));
    PreChars(v.pre);
    IdentifierChars(v.build.value);
  }

  /**
   * The npm spelling of a valid version has the same precedence exactly when
   * the version carries no build metadata.
   */
  lemma NpmPrecedenceExactly(v: Version)
    requires Valid(v)
    ensures Precedence(Show(v)) == Some(KeyOf(v))
    ensures Precedence(NpmVersion(Show(v))) == Precedence(Show(v)) <==> v.build.None?
  {
    ParseShow(v);
    match v.pre
    case Release =>
      if v.build.None? { NpmSame(v); } else { NpmBuiltRelease(v); }
    case Ids(_) =>
      if v.build.None? { NpmSame(v); } else { NpmBuiltIds(v); }
    case Rc(_) =>
      if v.build.None? {
        NpmRc(v);
        ParseShow(Normal(v));
      } else {
        NpmBuiltRc(v);
      }
  }

  /**
   * A final release with build metadata is respelled as a prerelease, which sorts
   * below it, or is refused because of a leading zero in the metadata.
   */
  lemma NpmReleaseBelow(v: Version)
    requires Valid(v) && v.pre.Release? && v.build.Some?
    ensures var npm := Precedence(NpmVersion(Show(v)));
            && (npm.Some? <==> forall id :: id in v.build.value ==> Admissible(id))
            && WellKeyed(KeyOf(v))
            && (npm.Some? ==> WellKeyed(npm.value) && KeyLess(npm.value, KeyOf(v)))
  {
    var w := v.(pre := Ids(v.build.value), build := None);
    NpmReleaseText(v);
    ParseShow(w);
    if Valid(w) {
      PrecedenceKinded(Show(w));
    }
  }

  lemma NpmReleaseText(v: Version)
    requires WellFormed(v) && v.pre.Release? && v.build.Some?
    ensures WellFormed(v.(pre := Ids(v.build.value), build := None))
    ensures NpmVersion(Show(v)) == Show(v.(pre := Ids(v.build.value), build := None))
  {
    NpmBuild(v);
    var core, b := CoreText(Core(v.major, v.minor, v.patch)), Join(v.build.value, '.');
    assert core + "" + ['-'] + b == core + ("-" + b) + "";
  }

  lemma ExampleVersion() returns (v: Version)
    ensures Valid(v) && v.pre.Release? && v.build == Some(["5"]) && Admissible("5")
    ensures Show(v) == "1.0.0+5" && Show(v.(pre := Ids(["5"]), build := None)) == "1.0.0-5"
  {
    v := Version(1, 0, 0, Release, Some(["5"]));
    assert Join(["5"], '.') == "5" && CoreText(Core(1, 0, 0)) == "1.0.0";
  }

  /** The version 1.0.0+5, whose npm spelling 1.0.0-5 is a prerelease of 1.0.0. */
  lemma NpmExample() returns (v: Version)
    ensures Valid(v) && v.pre.Release? && Show(v) == "1.0.0+5" && NpmVersion(Show(v)) == "1.0.0-5"
    ensures var npm := Precedence(NpmVersion(Show(v)));
            WellKeyed(KeyOf(v)) && npm.Some? && WellKeyed(npm.value) && KeyLess(npm.value, KeyOf(v))
  {
    v := ExampleVersion();
    NpmReleaseText(v);
    NpmReleaseBelow(v);
  }
}
