/** Code point order on texts and byte order on bytes: `<=` on Python str and bytes, and on SQLite text. */
module Lexicographic {
  import opened Common
  import opened Sorting

  function CharCode(c: char): int {
    c as int
  }

  function ByteCode(b: byte): int {
    b
  }

  /** `s` comes before `t` in the dictionary order of the codes, or equals it. */
  predicate Leq<T(==)>(s: seq<T>, t: seq<T>, code: T -> int) {
    || s == []
    || (t != [] &&
        (code(s[0]) < code(t[0]) || (code(s[0]) == code(t[0]) && Leq(s[1..], t[1..], code))))
  }

  predicate Less<T(==)>(s: seq<T>, t: seq<T>, code: T -> int) {
    !Leq(t, s, code)
  }

  predicate TextLeq(s: string, t: string) {
    Leq(s, t, CharCode)
  }

  predicate BytesLeq(s: bytes, t: bytes) {
    Leq(s, t, ByteCode)
  }

  ghost predicate Injective<T(!new)>(code: T -> int) {
    forall x, y :: code(x) == code(y) ==> x == y
  }

  lemma {:induction false} Total<T>(s: seq<T>, t: seq<T>, code: T -> int)
    ensures Leq(s, t, code) || Leq(t, s, code)
  {
    if s != [] && t != [] {
      Total(s[1..], t[1..], code);
    }
  }

  lemma {:induction false} Transitive<T>(s: seq<T>, t: seq<T>, u: seq<T>, code: T -> int)
    requires Leq(s, t, code) && Leq(t, u, code)
    ensures Leq(s, u, code)
  {
    if s != [] && code(s[0]) == code(t[0]) == code(u[0]) {
      Transitive(s[1..], t[1..], u[1..], code);
    }
  }

  lemma {:induction false} Antisym<T(!new)>(s: seq<T>, t: seq<T>, code: T -> int)
    requires Injective(code) && Leq(s, t, code) && Leq(t, s, code)
    ensures s == t
  {
    if s != [] {
      assert code(s[0]) == code(t[0]);
      Antisym(s[1..], t[1..], code);
      assert s == [s[0]] + s[1..] && t == [t[0]] + t[1..];
    }
  }

  lemma {:induction false} Refl<T>(s: seq<T>, code: T -> int)
    ensures Leq(s, s, code)
  {
    if s != [] {
      Refl(s[1..], code);
    }
  }

  lemma TextOrder()
    ensures TotalPreorder(TextLeq) && Antisymmetric(TextLeq)
  {
    forall x, y
      ensures TextLeq(x, y) || TextLeq(y, x)
      ensures TextLeq(x, y) && TextLeq(y, x) ==> x == y
    {
      Total(x, y, CharCode);
      if TextLeq(x, y) && TextLeq(y, x) {
        Antisym(x, y, CharCode);
      }
    }
    forall x, y, z | TextLeq(x, y) && TextLeq(y, z)
      ensures TextLeq(x, z)
    {
      Transitive(x, y, z, CharCode);
    }
  }

  lemma BytesOrder()
    ensures TotalPreorder(BytesLeq) && Antisymmetric(BytesLeq)
  {
    forall x, y
      ensures BytesLeq(x, y) || BytesLeq(y, x)
      ensures BytesLeq(x, y) && BytesLeq(y, x) ==> x == y
    {
      Total(x, y, ByteCode);
      if BytesLeq(x, y) && BytesLeq(y, x) {
        Antisym(x, y, ByteCode);
      }
    }
    forall x, y, z | BytesLeq(x, y) && BytesLeq(y, z)
      ensures BytesLeq(x, z)
    {
      Transitive(x, y, z, ByteCode);
    }
  }

  lemma OneChar(a: char, b: char)
    ensures TextLeq([a], [b]) <==> a <= b
  {
    assert [a][1..] == [] && [b][1..] == [];
    assert Leq<char>([], [], CharCode);
    assert CharCode(a) < CharCode(b) || CharCode(a) == CharCode(b) || CharCode(a) > CharCode(b);
  }

  /** Behind equally long texts, further text only matters when they are equal. */
  lemma {:induction false} LeqAppend(s: string, t: string, x: string, y: string)
    requires |s| == |t|
    ensures TextLeq(s + x, t + y) <==> (TextLeq(s, t) && s != t) || (s == t && TextLeq(x, y))
  {
    if s == [] {
      assert s + x == x && t + y == y;
    } else {
      LeqAppend(s[1..], t[1..], x, y);
      assert (s + x)[1..] == s[1..] + x && (t + y)[1..] == t[1..] + y;
      assert s == [s[0]] + s[1..] && t == [t[0]] + t[1..];
    }
  }
}

/** Decimal numerals. */
module Decimal {
  import opened Lexicographic

  predicate IsDigit(c: char) {
    '0' <= c <= '9'
  }

  predicate Digits(s: string) {
    forall k :: 0 <= k < |s| ==> IsDigit(s[k])
  }

  function Digit(c: char): int {
    c as int - '0' as int
  }

  function Value(s: string): int {
    if s == [] then 0 else 10 * Value(s[..|s| - 1]) + Digit(s[|s| - 1])
  }

  /** No leading zero, except in "0" itself. */
  predicate Canonical(s: string) {
    s != [] && Digits(s) && (s[0] == '0' ==> |s| == 1)
  }

  function Numeral(n: nat): string {
    if n < 10 then [('0' as int + n) as char] else Numeral(n / 10) + [('0' as int + n % 10) as char]
  }

  /** The canonical texts are exactly the numerals of the naturals. */
  lemma CanonicalExactly(s: string)
    ensures Canonical(s) <==> exists n: nat :: s == Numeral(n)
  {
    if Canonical(s) {
      ValueRoundTrip(s);
      var n: nat := Value(s);
      assert s == Numeral(n);
    }
    forall n: nat
      ensures Canonical(Numeral(n))
    {
      NumeralRoundTrip(n);
    }
  }

  lemma {:induction false} NumeralRoundTrip(n: nat)
    ensures Canonical(Numeral(n)) && Value(Numeral(n)) == n
    ensures Numeral(n)[0] == '0' <==> n == 0
  {
    if n < 10 {
      assert Numeral(n)[..0] == [];
    } else {
      NumeralRoundTrip(n / 10);
      var s, c := Numeral(n / 10), ('0' as int + n % 10) as char;
      assert (s + [c])[..|s|] == s && (s + [c])[0] == s[0];
    }
  }

  lemma {:induction false} ValueRoundTrip(s: string)
    requires Canonical(s)
    ensures Value(s) >= 0 && Numeral(Value(s)) == s
    ensures s[0] != '0' ==> Value(s) > 0
  {
    var before, c := s[..|s| - 1], s[|s| - 1];
    assert s == before + [c];
    assert 0 <= Digit(c) <= 9 && ('0' as int + Digit(c)) as char == c;
    if before != [] {
      assert before[0] == s[0];
      ValueRoundTrip(before);
      assert Value(s) / 10 == Value(before) && Value(s) % 10 == Digit(c);
    }
  }

  lemma ValueInjective(s: string, t: string)
    requires Canonical(s) && Canonical(t) && Value(s) == Value(t)
    ensures s == t
  {
    ValueRoundTrip(s);
    ValueRoundTrip(t);
  }

  /** On numerals of the same length dictionary order is numeric order. */
  lemma {:induction false} SameLengthOrder(s: string, t: string)
    requires |s| == |t| && Digits(s) && Digits(t)
    ensures TextLeq(s, t) <==> Value(s) <= Value(t)
    ensures Value(s) == Value(t) <==> s == t
  {
    if s != [] {
      var s', t', a, b := s[..|s| - 1], t[..|t| - 1], s[|s| - 1], t[|t| - 1];
      assert s == s' + [a] && t == t' + [b];
      SameLengthOrder(s', t');
      LeqAppend(s', t', [a], [b]);
      assert 0 <= Digit(a) <= 9 && 0 <= Digit(b) <= 9;
      OneChar(a, b);
    }
  }

  lemma ValueAt(s: string, k: nat)
    requires k < |s|
    ensures Value(s[..k + 1]) == 10 * Value(s[..k]) + Digit(s[k])
  {
    assert s[..k + 1][..k] == s[..k];
  }

  /** The last `width` digits of `n`, with leading zeros. */
  function Pad(n: nat, width: nat): (s: string)
    ensures |s| == width && Digits(s)
  {
    if width == 0 then [] else Pad(n / 10, width - 1) + [('0' as int + n % 10) as char]
  }

  lemma {:induction false} PadValue(n: nat, width: nat)
    requires n < Power10(width)
    ensures Value(Pad(n, width)) == n
  {
    if width > 0 {
      PadValue(n / 10, width - 1);
      assert Pad(n, width)[..width - 1] == Pad(n / 10, width - 1);
    }
  }

  function Power10(k: nat): int {
    if k == 0 then 1 else 10 * Power10(k - 1)
  }

  lemma {:induction false} Magnitude(s: string)
    requires Digits(s)
    ensures 0 <= Value(s) < Power10(|s|)
    ensures s != [] && s[0] != '0' ==> Power10(|s| - 1) <= Value(s)
  {
    if s != [] {
      Magnitude(s[..|s| - 1]);
    }
  }

  lemma {:induction false} PowersGrow(j: nat, k: nat)
    requires j <= k
    ensures 0 < Power10(j) <= Power10(k)
  {
    if j < k {
      PowersGrow(j, k - 1);
    } else if j > 0 {
      PowersGrow(j - 1, j - 1);
    }
  }
}
