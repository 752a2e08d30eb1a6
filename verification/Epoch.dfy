/** The column check of revision 0008 on the last verified Runtime epoch. */
module Epoch {
  import opened Common
  import opened Decimal
  import opened Lexicographic

  const MAX_EPOCH := 18446744073709551615 // 2^64 - 1
  const MAX_EPOCH_TEXT := "18446744073709551615"

  predicate Check(epoch: Option<string>) {
    || epoch.None?
    || var s := epoch.value;
       && 1 <= |s| <= 20
       && Digits(s)
       && '1' <= s[0] <= '9'
       && (|s| < 20 || TextLeq(s, MAX_EPOCH_TEXT))
  }

  lemma MaxEpochText()
    ensures |MAX_EPOCH_TEXT| == 20 && Digits(MAX_EPOCH_TEXT) && Value(MAX_EPOCH_TEXT) == MAX_EPOCH
  {
    MaxEpochValue("18446", "74407", "37095", "51615");
    assert MAX_EPOCH_TEXT == "18446" + "74407" + "37095" + "51615";
  }

  lemma MaxEpochValue(a: string, b: string, c: string, d: string)
    requires a == "18446" && b == "74407" && c == "37095" && d == "51615"
    ensures Value(a + b + c + d) == MAX_EPOCH
  {
    var t := a + b + c + d;
    assert t[..0] == [] && t[..20] == t;
    FiveMore(t, 0);
    assert Value(t[..5]) == 18446;
    FiveMore(t, 5);
    assert Value(t[..10]) == 1844674407;
    FiveMore(t, 10);
    assert Value(t[..15]) == 184467440737095;
    FiveMore(t, 15);
  }

  lemma FiveMore(t: string, k: nat)
    requires k + 5 <= |t|
    ensures Value(t[..k + 5]) == 100000 * Value(t[..k]) + 10000 * Digit(t[k]) + 1000 * Digit(t[k + 1])
                                 + 100 * Digit(t[k + 2]) + 10 * Digit(t[k + 3]) + Digit(t[k + 4])
  {
    ValueAt(t, k);
    ValueAt(t, k + 1);
    ValueAt(t, k + 2);
    ValueAt(t, k + 3);
    ValueAt(t, k + 4);
  }

  lemma Power19()
    ensures Power10(19) == 10000000000000000000
  {
    assert Power10(4) == 10 * Power10(3) == 10000;
    assert Power10(7) == 10 * Power10(6) == 100 * Power10(5) == 10000000;
    assert Power10(10) == 10 * Power10(9) == 100 * Power10(8) == 10000000000;
    assert Power10(13) == 10 * Power10(12) == 100 * Power10(11) == 10000000000000;
    assert Power10(16) == 10 * Power10(15) == 100 * Power10(14) == 10000000000000000;
    assert Power10(19) == 10 * Power10(18) == 100 * Power10(17) == 10000000000000000000;
  }

  /** A non-null epoch passes exactly when it is the numeral of an integer from 1 to 2^64 - 1. */
  lemma CheckExactly(s: string)
    ensures Check(Some(s)) <==> exists n: nat :: 1 <= n <= MAX_EPOCH && s == Numeral(n)
  {
    MaxEpochText();
    Power19();
    if Check(Some(s)) {
      ValueRoundTrip(s);
      Magnitude(s);
      if |s| < 20 {
        PowersGrow(|s|, 19);
      } else {
        SameLengthOrder(s, MAX_EPOCH_TEXT);
      }
    }
    if n: nat :| 1 <= n <= MAX_EPOCH && s == Numeral(n) {
      NumeralRoundTrip(n);
      Magnitude(s);
      if |s| > 20 {
        PowersGrow(20, |s| - 1);
      } else if |s| == 20 {
        SameLengthOrder(s, MAX_EPOCH_TEXT);
      }
    }
  }
}
