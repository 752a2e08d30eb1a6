/** Timestamps as texts: the shape and calendar checks, and what their order means. */
module Timestamps {
  import opened Decimal
  import opened Lexicographic

  // ------------------------------------------------------------------ shape

  /** YYYY-MM-DD HH:MM:SS at the front of the text. */
  predicate Dated(s: string) {
    && |s| >= 19
    && Digits(s[..4]) && s[4] == '-' && Digits(s[5..7]) && s[7] == '-' && Digits(s[8..10]) && s[10] == ' '
    && Digits(s[11..13]) && s[13] == ':' && Digits(s[14..16]) && s[16] == ':' && Digits(s[17..19])
  }

  predicate Seconds(s: string) {
    |s| == 19 && Dated(s)
  }

  predicate Micros(s: string) {
    |s| == 26 && Dated(s) && s[19] == '.' && Digits(s[20..])
  }

  predicate LeapYear(y: int) {
    y % 4 == 0 && (y % 100 != 0 || y % 400 == 0)
  }

  function MonthLength(y: int, m: int): int {
    if m in {1, 3, 5, 7, 8, 10, 12} then 31
    else if m in {4, 6, 9, 11} then 30
    else if m == 2 then (if LeapYear(y) then 29 else 28)
    else 0
  }

  datatype Stamp = Stamp(year: int, month: int, day: int, hour: int, minute: int, second: int, micro: int)

  predicate OnCalendar(c: Stamp) {
    && 1 <= c.year <= 9999 && 1 <= c.month <= 12 && 1 <= c.day <= MonthLength(c.year, c.month)
    && 0 <= c.hour <= 23 && 0 <= c.minute <= 59 && 0 <= c.second <= 59
  }

  /** The numbers in the text; without a fraction the microseconds are zero. */
  function Fields(s: string): Stamp
    requires Dated(s)
  {
    Stamp(Value(s[..4]), Value(s[5..7]), Value(s[8..10]), Value(s[11..13]), Value(s[14..16]), Value(s[17..19]),
          if |s| == 26 then Value(s[20..]) else 0)
  }

  /** The form the new tables demand. */
  predicate Utc6(s: string) {
    Micros(s) && OnCalendar(Fields(s))
  }

  /** The forms the upgrade accepts. */
  predicate Source(s: string) {
    (Seconds(s) || Micros(s)) && OnCalendar(Fields(s))
  }

  const Zeros := ".000000"

  function Normalise(s: string): string {
    if |s| == 26 then s else s + Zeros
  }

  lemma NormaliseUtc6(s: string)
    requires Source(s)
    ensures Utc6(Normalise(s)) && Fields(Normalise(s)) == Fields(s)
    ensures Normalise(Normalise(s)) == Normalise(s)
  {
    if |s| == 19 {
      var n := Normalise(s);
      assert n[..4] == s[..4] && n[5..7] == s[5..7] && n[8..10] == s[8..10];
      assert n[11..13] == s[11..13] && n[14..16] == s[14..16] && n[17..19] == s[17..19];
      assert n[20..] == "000000";
      ZeroValue();
    }
  }

  lemma ZeroValue()
    ensures Value("000000") == 0
  {
    AllZero("000000");
  }

  lemma {:induction false} AllZero(s: string)
    requires forall k :: 0 <= k < |s| ==> s[k] == '0'
    ensures Value(s) == 0
  {
    if s != [] {
      AllZero(s[..|s| - 1]);
    }
  }

  // ------------------------------------------------------------------ text order

  /** Comparing texts that begin with fields of one width compares the fields first. */
  lemma FieldFirst(a: string, b: string, x: string, y: string)
    requires |a| == |b| && Digits(a) && Digits(b)
    ensures TextLeq(a + x, b + y) <==> Value(a) < Value(b) || (Value(a) == Value(b) && TextLeq(x, y))
  {
    LeqAppend(a, b, x, y);
    SameLengthOrder(a, b);
  }

  lemma Separator(sep: char, x: string, y: string)
    ensures TextLeq([sep] + x, [sep] + y) <==> TextLeq(x, y)
  {
    LeqAppend([sep], [sep], x, y);
  }

  /** The same at positions `i` to `j` of two texts, behind which stands one separator. */
  lemma FieldAt(s: string, t: string, i: nat, j: nat)
    requires i <= j < |s| && j < |t| && Digits(s[i..j]) && Digits(t[i..j]) && s[j] == t[j]
    ensures TextLeq(s[i..], t[i..]) <==>
            Value(s[i..j]) < Value(t[i..j]) || (Value(s[i..j]) == Value(t[i..j]) && TextLeq(s[j + 1..], t[j + 1..]))
  {
    var x, y := s[j + 1..], t[j + 1..];
    assert s[i..] == s[i..j] + ([s[j]] + x) && t[i..] == t[i..j] + ([t[j]] + y);
    FieldFirst(s[i..j], t[i..j], [s[j]] + x, [t[j]] + y);
    Separator(s[j], x, y);
  }

  predicate TimeLeq(a: Stamp, b: Stamp) {
    a.hour < b.hour || (a.hour == b.hour &&
    (a.minute < b.minute || (a.minute == b.minute &&
    (a.second < b.second || (a.second == b.second && a.micro <= b.micro)))))
  }

  predicate DateLess(a: Stamp, b: Stamp) {
    a.year < b.year || (a.year == b.year && (a.month < b.month || (a.month == b.month && a.day < b.day)))
  }

  predicate SameDate(a: Stamp, b: Stamp) {
    a.year == b.year && a.month == b.month && a.day == b.day
  }

  predicate StampLeq(a: Stamp, b: Stamp) {
    DateLess(a, b) || (SameDate(a, b) && TimeLeq(a, b))
  }

  lemma TextSeconds(s: string, t: string)
    requires Micros(s) && Micros(t)
    ensures var a, b := Fields(s), Fields(t);
            TextLeq(s[17..], t[17..]) <==> a.second < b.second || (a.second == b.second && a.micro <= b.micro)
  {
    FieldAt(s, t, 17, 19);
    SameLengthOrder(s[20..], t[20..]);
  }

  lemma TextTimes(s: string, t: string)
    requires Micros(s) && Micros(t)
    ensures TextLeq(s[11..], t[11..]) <==> TimeLeq(Fields(s), Fields(t))
  {
    FieldAt(s, t, 11, 13);
    FieldAt(s, t, 14, 16);
    TextSeconds(s, t);
  }

  lemma TextDays(s: string, t: string)
    requires Micros(s) && Micros(t)
    ensures var a, b := Fields(s), Fields(t);
            TextLeq(s[8..], t[8..]) <==> a.day < b.day || (a.day == b.day && TimeLeq(a, b))
  {
    FieldAt(s, t, 8, 10);
    TextTimes(s, t);
  }

  lemma TextStamps(s: string, t: string)
    requires Micros(s) && Micros(t)
    ensures TextLeq(s, t) <==> StampLeq(Fields(s), Fields(t))
  {
    assert s[0..] == s && t[0..] == t && s[0..4] == s[..4] && t[0..4] == t[..4];
    FieldAt(s, t, 0, 4);
    FieldAt(s, t, 5, 7);
    TextDays(s, t);
  }

  // ------------------------------------------------------------------ calendar

  function YearLength(y: int): int {
    if LeapYear(y) then 366 else 365
  }

  /** Days from 1 January of year 1 to 1 January of year `y`. */
  function YearStart(y: nat): nat {
    if y <= 1 then 0 else YearStart(y - 1) + YearLength(y - 1)
  }

  /** Days from 1 January to the first of month `m`. */
  function MonthStart(y: nat, m: nat): nat {
    if m <= 1 then 0 else MonthStart(y, m - 1) + MonthLength(y, m - 1)
  }

  function DayNumber(c: Stamp): int
    requires OnCalendar(c)
  {
    YearStart(c.year) + MonthStart(c.year, c.month) + c.day
  }

  /** Microseconds on the proleptic Gregorian calendar. */
  function Instant(c: Stamp): int
    requires OnCalendar(c)
  {
    (((DayNumber(c) * 24 + c.hour) * 60 + c.minute) * 60 + c.second) * 1000000 + c.micro
  }

  lemma {:induction false} YearsGrow(y: nat, z: nat)
    requires 1 <= y < z
    ensures YearStart(y) + YearLength(y) <= YearStart(z)
  {
    if y + 1 < z {
      YearsGrow(y, z - 1);
    }
  }

  lemma {:induction false} MonthsGrow(y: nat, m: nat, n: nat)
    requires 1 <= m < n <= 13
    ensures MonthStart(y, m) + MonthLength(y, m) <= MonthStart(y, n)
  {
    if m + 1 < n {
      MonthsGrow(y, m, n - 1);
    }
  }

  lemma YearSum(y: nat)
    ensures MonthStart(y, 13) == YearLength(y)
  {
    var l := MonthLength(y, 2);
    assert MonthStart(y, 2) == 31;
    assert MonthStart(y, 3) == 31 + l;
    assert MonthStart(y, 4) == 62 + l;
    assert MonthStart(y, 5) == 92 + l;
    assert MonthStart(y, 6) == 123 + l;
    assert MonthStart(y, 7) == 153 + l;
    assert MonthStart(y, 8) == 184 + l;
    assert MonthStart(y, 9) == 215 + l;
    assert MonthStart(y, 10) == 245 + l;
    assert MonthStart(y, 11) == 276 + l;
    assert MonthStart(y, 12) == 306 + l;
  }

  lemma DatesGrow(a: Stamp, b: Stamp)
    requires OnCalendar(a) && OnCalendar(b) && DateLess(a, b)
    ensures DayNumber(a) < DayNumber(b)
  {
    if a.year < b.year {
      YearsGrow(a.year, b.year);
      MonthsGrow(a.year, a.month, 13);
      YearSum(a.year);
    } else if a.month < b.month {
      MonthsGrow(a.year, a.month, b.month);
    }
  }

  /** The starts of years and months in closed form, of the Gregorian calendar. */
  lemma {:induction false} YearStartClosed(y: nat)
    requires y >= 1
    ensures YearStart(y) == 365 * (y - 1) + (y - 1) / 4 - (y - 1) / 100 + (y - 1) / 400
  {
    if y > 1 {
      YearStartClosed(y - 1);
      LeapCount(y - 1);
    }
  }

  lemma LeapCount(z: nat)
    requires z >= 1
    ensures z / 4 - z / 100 + z / 400
            == (z - 1) / 4 - (z - 1) / 100 + (z - 1) / 400 + if LeapYear(z) then 1 else 0
  {
    Steps(z, 4);
    Steps(z, 100);
    Steps(z, 400);
    if z % 400 == 0 {
      Of400(z);
    }
    if z % 100 == 0 {
      Of100(z);
    }
  }

  lemma Steps(z: nat, d: nat)
    requires z >= 1 && d in {4, 100, 400}
    ensures z / d == (z - 1) / d + if z % d == 0 then 1 else 0
  {
    if d == 4 {
    } else if d == 100 {
    } else {
    }
  }

  lemma Hundreds(k: nat)
    ensures (100 * k) % 100 == 0
  {
  }

  lemma Fours(k: nat)
    ensures (4 * k) % 4 == 0
  {
  }

  lemma Of400(z: nat)
    requires z % 400 == 0
    ensures z % 100 == 0
  {
    var q := z / 400;
    Hundreds(4 * q);
    assert z == 100 * (4 * q);
  }

  lemma Of100(z: nat)
    requires z % 100 == 0
    ensures z % 4 == 0
  {
    var q := z / 100;
    Fours(25 * q);
    assert z == 4 * (25 * q);
  }

  lemma MonthStartClosed(y: nat, m: nat)
    requires 3 <= m <= 13
    ensures MonthStart(y, 1) == 0 && MonthStart(y, 2) == 31
    ensures MonthStart(y, m) == 59 + (if LeapYear(y) then 1 else 0) + (153 * (m - 3) + 2) / 5
  {
    YearSum(y);
  }

  // Every day from 1 January of year 1 to 31 December 9999 has a date.

  lemma {:induction false} YearOf(n: int, y: nat) returns (year: nat)
    requires y >= 1 && 1 <= n <= YearStart(y + 1)
    ensures 1 <= year <= y && YearStart(year) < n <= YearStart(year + 1)
    decreases y
  {
    if n > YearStart(y) || y == 1 {
      year := y;
    } else {
      year := YearOf(n, y - 1);
    }
  }

  lemma {:induction false} MonthOf(n: int, y: nat, m: nat) returns (month: nat)
    requires 1 <= m <= 12 && 1 <= n <= MonthStart(y, m + 1)
    ensures 1 <= month <= m && MonthStart(y, month) < n <= MonthStart(y, month + 1)
    decreases m
  {
    if n > MonthStart(y, m) || m == 1 {
      month := m;
    } else {
      month := MonthOf(n, y, m - 1);
    }
  }

  /** The calendar check leaves out no date: every day number in the range has one. */
  lemma EveryDayHasDate(n: int) returns (c: Stamp)
    requires 1 <= n <= YearStart(10000)
    ensures OnCalendar(c) && DayNumber(c) == n && c.hour == 0 && c.minute == 0 && c.second == 0 && c.micro == 0
  {
    var y := YearOf(n, 9999);
    YearSum(y);
    var m := MonthOf(n - YearStart(y), y, 12);
    c := Stamp(y, m, n - YearStart(y) - MonthStart(y, m), 0, 0, 0, 0);
  }

  /** Nor any time of day. */
  lemma EveryInstantHasStamp(day: int, micros: int) returns (c: Stamp)
    requires 1 <= day <= YearStart(10000) && 0 <= micros < 24 * 60 * 60 * 1000000
    ensures OnCalendar(c) && MicroRange(c) && Instant(c) == day * (24 * 60 * 60 * 1000000) + micros
  {
    var date := EveryDayHasDate(day);
    var seconds := micros / 1000000;
    var minutes := seconds / 60;
    assert seconds < 86400 && minutes < 1440;
    c := date.(hour := minutes / 60, minute := minutes % 60, second := seconds % 60, micro := micros % 1000000);
    assert (minutes / 60) * 60 + minutes % 60 == minutes && minutes * 60 + seconds % 60 == seconds;
  }

  predicate MicroRange(c: Stamp) {
    0 <= c.micro < 1000000
  }

  lemma InstantOrder(a: Stamp, b: Stamp)
    requires OnCalendar(a) && OnCalendar(b) && MicroRange(a) && MicroRange(b)
    ensures StampLeq(a, b) <==> Instant(a) <= Instant(b)
  {
    if DateLess(a, b) {
      DatesGrow(a, b);
    } else if DateLess(b, a) {
      DatesGrow(b, a);
    }
  }

  lemma MicroBound(s: string)
    requires Micros(s)
    ensures MicroRange(Fields(s))
  {
    Magnitude(s[20..]);
    assert Power10(6) == 10 * (10 * (10 * (10 * (10 * (10 * Power10(0))))));
  }

  /** Text order on the demanded form is order in time, and equal instants are equal texts. */
  lemma TextOrderIsTimeOrder(s: string, t: string)
    requires Utc6(s) && Utc6(t)
    ensures TextLeq(s, t) <==> Instant(Fields(s)) <= Instant(Fields(t))
    ensures s == t <==> Instant(Fields(s)) == Instant(Fields(t))
  {
    TextStamps(s, t);
    TextStamps(t, s);
    MicroBound(s);
    MicroBound(t);
    InstantOrder(Fields(s), Fields(t));
    InstantOrder(Fields(t), Fields(s));
    TextOrder();
  }

  // ------------------------------------------------------------------ rendering

  function Render(c: Stamp): (s: string)
    requires OnCalendar(c) && MicroRange(c)
    ensures |s| == 26
  {
    Pad(c.year, 4) + "-" + Pad(c.month, 2) + "-" + Pad(c.day, 2) + " "
    + Pad(c.hour, 2) + ":" + Pad(c.minute, 2) + ":" + Pad(c.second, 2) + "." + Pad(c.micro, 6)
  }

  lemma Powers()
    ensures Power10(2) == 100 && Power10(4) == 10000 && Power10(6) == 1000000
  {
    assert Power10(2) == 10 * (10 * Power10(0));
    assert Power10(4) == 10 * (10 * Power10(2));
    assert Power10(6) == 10 * (10 * Power10(4));
  }

  lemma RenderSlices(c: Stamp)
    requires OnCalendar(c) && MicroRange(c)
    ensures var s := Render(c);
            && s[..4] == Pad(c.year, 4) && s[5..7] == Pad(c.month, 2) && s[8..10] == Pad(c.day, 2)
            && s[11..13] == Pad(c.hour, 2) && s[14..16] == Pad(c.minute, 2) && s[17..19] == Pad(c.second, 2)
            && s[20..] == Pad(c.micro, 6)
            && s[4] == '-' && s[7] == '-' && s[10] == ' ' && s[13] == ':' && s[16] == ':' && s[19] == '.'
  {
  }

  lemma MonthsShort(c: Stamp)
    requires OnCalendar(c)
    ensures c.day <= 31
  {
  }

  /** Every valid stamp has a text of the demanded form, which reads back as the stamp. */
  lemma RenderRoundTrip(c: Stamp)
    requires OnCalendar(c) && MicroRange(c)
    ensures Utc6(Render(c)) && Fields(Render(c)) == c
  {
    Powers();
    RenderSlices(c);
    MonthsShort(c);
    PadValue(c.year, 4);
    PadValue(c.month, 2);
    PadValue(c.day, 2);
    PadValue(c.hour, 2);
    PadValue(c.minute, 2);
    PadValue(c.second, 2);
    PadValue(c.micro, 6);
    assert Micros(Render(c));
  }

  /** Every instant from year 1 to year 9999 is named by exactly one text of the demanded form. */
  lemma EveryInstantHasText(day: int, micros: int) returns (s: string)
    requires 1 <= day <= YearStart(10000) && 0 <= micros < 24 * 60 * 60 * 1000000
    ensures Utc6(s) && Instant(Fields(s)) == day * (24 * 60 * 60 * 1000000) + micros
    ensures forall t :: Utc6(t) && Instant(Fields(t)) == Instant(Fields(s)) ==> t == s
  {
    var c := EveryInstantHasStamp(day, micros);
    RenderRoundTrip(c);
    s := Render(c);
    forall t | Utc6(t) && Instant(Fields(t)) == Instant(Fields(s))
      ensures t == s
    {
      TextOrderIsTimeOrder(t, s);
    }
  }

  // ------------------------------------------------------------------ mixed forms

  lemma ZerosLeast(f: string)
    requires |f| == 7 && f[0] == '.' && Digits(f[1..])
    ensures TextLeq(Zeros, f)
    ensures TextLeq(f, Zeros) <==> f == Zeros
  {
    assert f == ['.'] + f[1..] && Zeros == ['.'] + "000000";
    Separator('.', "000000", f[1..]);
    Separator('.', f[1..], "000000");
    SameLengthOrder("000000", f[1..]);
    SameLengthOrder(f[1..], "000000");
    ZeroValue();
    Magnitude(f[1..]);
  }

  /** The two texts name the same second, the first with a fraction of zero and the second without. */
  predicate SpelledOut(s: string, t: string) {
    |s| == 26 && |t| == 19 && s == t + Zeros
  }

  /** How raw order of mixed forms differs from the order of the normal forms. */
  lemma MixedOrderExactly(s: string, t: string)
    requires Source(s) && Source(t)
    ensures TextLeq(Normalise(s), Normalise(t)) <==> TextLeq(s, t) || SpelledOut(s, t)
  {
    var a, b, x, y := s[..19], t[..19], s[19..], t[19..];
    assert s == a + x && t == b + y;
    var x', y' := if x == "" then Zeros else x, if y == "" then Zeros else y;
    assert Normalise(s) == a + x' && Normalise(t) == b + y';
    LeqAppend(a, b, x, y);
    LeqAppend(a, b, x', y');
    assert x' == Zeros || x'[1..] == s[20..];
    assert y' == Zeros || y'[1..] == t[20..];
    ZerosLeast(x');
    ZerosLeast(y');
    assert SpelledOut(s, t) <==> a == b && x == Zeros && y == "";
  }
}

/** The sessions table through the upgrade to revision 0005 and back. */
module Sessions {
  import opened Common
  import opened Decimal
  import opened Lexicographic
  import opened Timestamps

  /** A stored value; the upgrade refuses timestamps that are not text. */
  datatype Cell = Text(s: string) | NotText

  datatype Session = Session(id: string, user: string, token: string, csrf: string,
                             created: Cell, lastSeen: Cell, idleExpires: Cell, expires: Cell,
                             revoked: Option<Cell>, client: Option<string>)

  datatype NewSession = NewSession(id: string, user: string, token: string, csrf: string,
                                   created: string, recent: string, epoch: int, lastSeen: string,
                                   idleExpires: string, expires: string,
                                   revoked: Option<string>, client: Option<string>)

  predicate Identified(id: string, prefix: string)
    requires |prefix| == 4
  {
    |id| == 36 && id[..4] == prefix && LowerHex(id[4..])
  }

  predicate SourceCell(c: Cell) {
    c.Text? && Source(c.s)
  }

  predicate NamesValid(id: string, user: string, token: string, csrf: string, admins: set<string>) {
    && Identified(id, "ses_") && Identified(user, "adm_") && user in admins
    && |token| == 64 && LowerHex(token) && |csrf| == 64 && LowerHex(csrf)
  }

  /** The preflight query finds nothing wrong with the row. */
  predicate Preflight(r: Session, admins: set<string>) {
    && NamesValid(r.id, r.user, r.token, r.csrf, admins)
    && SourceCell(r.created) && SourceCell(r.lastSeen) && SourceCell(r.idleExpires) && SourceCell(r.expires)
    && (r.revoked.Some? ==> SourceCell(r.revoked.value))
    && TextLeq(r.created.s, r.lastSeen.s) && TextLeq(r.created.s, r.idleExpires.s)
    && TextLeq(r.created.s, r.expires.s)
  }

  predicate PreflightAll(rows: seq<Session>, admins: set<string>) {
    forall k :: 0 <= k < |rows| ==> Preflight(rows[k], admins)
  }

  /** The CHECK constraints of the new table. */
  predicate Checked(r: NewSession) {
    && r.epoch >= 1
    && TextLeq(r.created, r.recent) && TextLeq(r.recent, r.lastSeen)
    && Utc6(r.created) && Utc6(r.recent) && Utc6(r.lastSeen) && Utc6(r.idleExpires) && Utc6(r.expires)
    && (r.revoked.Some? ==> Utc6(r.revoked.value))
  }

  function Cell6(c: Cell): string {
    if c.Text? then Normalise(c.s) else ""
  }

  /** One row of the copy into the new table. */
  function Upgraded(r: Session): NewSession {
    NewSession(r.id, r.user, r.token, r.csrf, Cell6(r.created), Cell6(r.created), 1, Cell6(r.lastSeen),
               Cell6(r.idleExpires), Cell6(r.expires),
               if r.revoked.None? then None else Some(Cell6(r.revoked.value)), r.client)
  }

  /** One row of the copy back. */
  function Downgraded(r: NewSession): Session {
    Session(r.id, r.user, r.token, r.csrf, Text(r.created), Text(r.lastSeen), Text(r.idleExpires), Text(r.expires),
            if r.revoked.None? then None else Some(Text(r.revoked.value)), r.client)
  }

  /** The row with its timestamps in the demanded form and nothing else changed. */
  function Normalised(r: Session): Session {
    r.(created := Text(Cell6(r.created)), lastSeen := Text(Cell6(r.lastSeen)),
       idleExpires := Text(Cell6(r.idleExpires)), expires := Text(Cell6(r.expires)),
       revoked := if r.revoked.None? then None else Some(Text(Cell6(r.revoked.value))))
  }

  /** A row that the downgrade may drop columns of without losing anything. */
  predicate Reversible(r: NewSession) {
    r.epoch == 1 && r.recent == r.created
  }

  lemma CellNormal(c: Cell)
    requires SourceCell(c)
    ensures Utc6(Cell6(c)) && Source(Cell6(c)) && Cell6(Text(Cell6(c))) == Cell6(c)
    ensures Fields(Cell6(c)) == Fields(c.s)
  {
    NormaliseUtc6(c.s);
  }

  lemma CellOrder(c: Cell, d: Cell)
    requires SourceCell(c) && SourceCell(d) && TextLeq(c.s, d.s)
    ensures TextLeq(Cell6(c), Cell6(d))
  {
    MixedOrderExactly(c.s, d.s);
  }

  /** A row that passes the preflight satisfies every constraint of the new table. */
  lemma UpgradeSatisfiesChecks(r: Session, admins: set<string>)
    requires Preflight(r, admins)
    ensures Checked(Upgraded(r)) && Reversible(Upgraded(r))
  {
    CellNormal(r.created);
    CellNormal(r.lastSeen);
    CellNormal(r.idleExpires);
    CellNormal(r.expires);
    if r.revoked.Some? {
      CellNormal(r.revoked.value);
    }
    Refl(Cell6(r.created), CharCode);
    CellOrder(r.created, r.lastSeen);
  }

  lemma ExampleNames(zeros: string)
    requires |zeros| == 32 && LowerHex(zeros)
    ensures NamesValid("ses_" + zeros, "adm_" + zeros, zeros + zeros, zeros + zeros, {"adm_" + zeros})
  {
    assert ("ses_" + zeros)[..4] == "ses_" && ("ses_" + zeros)[4..] == zeros;
    assert ("adm_" + zeros)[..4] == "adm_" && ("adm_" + zeros)[4..] == zeros;
  }

  /** There are such rows: one whose four instants are the same second. */
  lemma PreflightExample() returns (r: Session, admins: set<string>)
    ensures Preflight(r, admins)
  {
    var zeros := seq(32, k => '0');
    var spelled, at := PreflightOrderExample();
    r := SameInstant(zeros, at);
    admins := {r.user};
  }

  lemma SameInstant(zeros: string, at: string) returns (r: Session)
    requires |zeros| == 32 && LowerHex(zeros) && Source(at)
    ensures Preflight(r, {r.user})
  {
    ExampleNames(zeros);
    Refl(at, CharCode);
    r := Session("ses_" + zeros, "adm_" + zeros, zeros + zeros, zeros + zeros,
                 Text(at), Text(at), Text(at), Text(at), None, None);
  }

  /** The normalised row passes the preflight again and is upgraded to the same row. */
  lemma NormalisedUpgradesAlike(r: Session, admins: set<string>)
    requires Preflight(r, admins)
    ensures Preflight(Normalised(r), admins) && Upgraded(Normalised(r)) == Upgraded(r)
  {
    CellNormal(r.created);
    CellNormal(r.lastSeen);
    CellNormal(r.idleExpires);
    CellNormal(r.expires);
    if r.revoked.Some? {
      CellNormal(r.revoked.value);
    }
    CellOrder(r.created, r.lastSeen);
    CellOrder(r.created, r.idleExpires);
    CellOrder(r.created, r.expires);
  }

  /**
   * The preflight is stricter than time: it refuses a pair that is in order in
   * time exactly when the earlier one spells out a zero fraction of the very
   * second the later one names without a fraction.
   */
  lemma PreflightOrderExactly(c: Cell, d: Cell)
    requires SourceCell(c) && SourceCell(d)
    ensures OnCalendar(Fields(c.s)) && OnCalendar(Fields(d.s))
    ensures Instant(Fields(c.s)) <= Instant(Fields(d.s)) <==> TextLeq(c.s, d.s) || SpelledOut(c.s, d.s)
    ensures SpelledOut(c.s, d.s) ==> !TextLeq(c.s, d.s)
  {
    CellNormal(c);
    CellNormal(d);
    TextOrderIsTimeOrder(Cell6(c), Cell6(d));
    MixedOrderExactly(c.s, d.s);
    if SpelledOut(c.s, d.s) {
      Longer(d.s, Zeros);
    }
  }

  lemma ExampleValues()
    ensures Value("2026") == 2026 && Value("01") == 1 && Value("00") == 0
  {
    assert "2026"[..3] == "202" && "202"[..2] == "20" && "20"[..1] == "2" && "2"[..0] == "";
    assert "01"[..1] == "0" && "00"[..1] == "0" && "0"[..0] == "";
  }

  lemma ExampleSource()
    ensures Source("2026-01-01 00:00:00")
  {
    var s := "2026-01-01 00:00:00";
    assert s[..4] == "2026" && s[5..7] == "01" && s[8..10] == "01";
    assert s[11..13] == "00" && s[14..16] == "00" && s[17..19] == "00";
    ExampleValues();
  }

  /** One second, spelled in both ways: the preflight refuses a row that was last seen when it was created. */
  lemma PreflightOrderExample() returns (s: string, t: string)
    ensures s == "2026-01-01 00:00:00.000000" && t == "2026-01-01 00:00:00"
    ensures Source(s) && Source(t) && SpelledOut(s, t)
  {
    t := "2026-01-01 00:00:00";
    s := t + Zeros;
    ExampleSource();
    NormaliseUtc6(t);
  }

  lemma Longer(s: string, x: string)
    requires x != ""
    ensures !TextLeq(s + x, s)
  {
    assert s + [] == s;
    LeqAppend(s, s, x, []);
  }

  /** What the preflight asks of a downgraded row beyond the constraints of the new table. */
  predicate Readmitted(r: NewSession, admins: set<string>) {
    && NamesValid(r.id, r.user, r.token, r.csrf, admins)
    && TextLeq(r.created, r.idleExpires) && TextLeq(r.created, r.expires)
  }

  /** The instant of a stored timestamp. */
  function Time(c: Cell): int
    requires SourceCell(c)
  {
    Instant(Fields(c.s))
  }

  /** Not before, and not the one spelling that the preflight mistakes for later. */
  predicate Follows(c: Cell, d: Cell)
    requires SourceCell(c) && SourceCell(d)
  {
    Time(c) <= Time(d) && !SpelledOut(c.s, d.s)
  }

  /** The preflight, told by instants instead of texts. */
  lemma PreflightExactly(r: Session, admins: set<string>)
    ensures Preflight(r, admins) <==>
            && |r.id| == 36 && r.id[..4] == "ses_" && LowerHex(r.id[4..])
            && |r.user| == 36 && r.user[..4] == "adm_" && LowerHex(r.user[4..]) && r.user in admins
            && |r.token| == 64 && LowerHex(r.token) && |r.csrf| == 64 && LowerHex(r.csrf)
            && SourceCell(r.created) && SourceCell(r.lastSeen) && SourceCell(r.idleExpires) && SourceCell(r.expires)
            && (r.revoked.Some? ==> SourceCell(r.revoked.value))
            && Follows(r.created, r.lastSeen) && Follows(r.created, r.idleExpires) && Follows(r.created, r.expires)
  {
    if SourceCell(r.created) && SourceCell(r.lastSeen) && SourceCell(r.idleExpires) && SourceCell(r.expires) {
      PreflightOrderExactly(r.created, r.lastSeen);
      PreflightOrderExactly(r.created, r.idleExpires);
      PreflightOrderExactly(r.created, r.expires);
    }
  }

  /** A text names the instant of a stored timestamp. */
  predicate Names(text: string, c: Cell) {
    SourceCell(c) && Utc6(text) && Instant(Fields(text)) == Time(c)
  }

  /** The new row has every column of the old one, each instant in its own column. */
  predicate Carried(r: Session, r': NewSession) {
    && r'.id == r.id && r'.user == r.user && r'.token == r.token && r'.csrf == r.csrf && r'.client == r.client
    && Names(r'.created, r.created) && Names(r'.lastSeen, r.lastSeen)
    && Names(r'.idleExpires, r.idleExpires) && Names(r'.expires, r.expires)
    && (r'.revoked.Some? <==> r.revoked.Some?)
    && (r.revoked.Some? ==> Names(r'.revoked.value, r.revoked.value))
    && r'.recent == r'.created && r'.epoch == 1
  }

  lemma UpgradeCarries(r: Session, admins: set<string>)
    requires Preflight(r, admins)
    ensures Carried(r, Upgraded(r))
  {
    CellNormal(r.created);
    CellNormal(r.lastSeen);
    CellNormal(r.idleExpires);
    CellNormal(r.expires);
    if r.revoked.Some? {
      CellNormal(r.revoked.value);
    }
  }

  /** The way back keeps every column that the old table has, as it is. */
  lemma DowngradeCarries(r: NewSession)
    ensures var r' := Downgraded(r);
            && r'.id == r.id && r'.user == r.user && r'.token == r.token && r'.csrf == r.csrf
            && r'.client == r.client
            && r'.created == Text(r.created) && r'.lastSeen == Text(r.lastSeen)
            && r'.idleExpires == Text(r.idleExpires) && r'.expires == Text(r.expires)
            && (r'.revoked.Some? <==> r.revoked.Some?)
            && (r.revoked.Some? ==> r'.revoked.value == Text(r.revoked.value))
  {
  }

  /** When a downgraded row can be upgraded again. */
  lemma ReUpgradeExactly(r: NewSession, admins: set<string>)
    requires Checked(r) && Reversible(r)
    ensures Preflight(Downgraded(r), admins) <==> Readmitted(r, admins)
    ensures Upgraded(Downgraded(r)) == r
  {
  }

  // ------------------------------------------------------------------ the table

  datatype Table = Before(was: seq<Session>) | Current(rows: seq<NewSession>)

  function UpgradeAll(rows: seq<Session>): seq<NewSession> {
    seq(|rows|, k requires 0 <= k < |rows| => Upgraded(rows[k]))
  }

  function DowngradeAll(rows: seq<NewSession>): seq<Session> {
    seq(|rows|, k requires 0 <= k < |rows| => Downgraded(rows[k]))
  }

  function NormaliseAll(rows: seq<Session>): seq<Session> {
    seq(|rows|, k requires 0 <= k < |rows| => Normalised(rows[k]))
  }

  predicate ReversibleAll(rows: seq<NewSession>) {
    forall k :: 0 <= k < |rows| ==> Reversible(rows[k])
  }

  predicate CheckedAll(rows: seq<NewSession>) {
    forall k :: 0 <= k < |rows| ==> Checked(rows[k])
  }

  /** A permitted downgrade loses nothing, and can be undone exactly for readmitted rows. */
  lemma DowngradeReversible(rows: seq<NewSession>, admins: set<string>)
    requires CheckedAll(rows) && ReversibleAll(rows)
    ensures UpgradeAll(DowngradeAll(rows)) == rows
    ensures PreflightAll(DowngradeAll(rows), admins) <==>
            forall k :: 0 <= k < |rows| ==> Readmitted(rows[k], admins)
  {
    forall k | 0 <= k < |rows|
      ensures UpgradeAll(DowngradeAll(rows))[k] == rows[k]
      ensures Preflight(DowngradeAll(rows)[k], admins) <==> Readmitted(rows[k], admins)
    {
      ReUpgradeExactly(rows[k], admins);
    }
    if PreflightAll(DowngradeAll(rows), admins) {
      forall k | 0 <= k < |rows|
        ensures Readmitted(rows[k], admins)
      {
        assert Preflight(DowngradeAll(rows)[k], admins);
      }
    }
  }

  /** A row that a downgrade would lose something of: no upgrade gives it back. */
  lemma IrreversibleLost(r: NewSession)
    requires !Reversible(r)
    ensures Upgraded(Downgraded(r)) != r
  {
  }

  /** The table at either revision; at the new one its constraints hold. */
  class SessionsTable {
    var table: Table

    ghost predicate Valid()
      reads this
    {
      table.Current? ==> CheckedAll(table.rows)
    }

    constructor (rows: seq<Session>)
      ensures Valid() && table == Before(rows)
    {
      table := Before(rows);
    }

    /** A table that has been in use since the upgrade. */
    constructor InUse(rows: seq<NewSession>)
      requires CheckedAll(rows)
      ensures Valid() && table == Current(rows)
    {
      table := Current(rows);
    }

    /** The upgrade; a failed preflight leaves the table alone. */
    method Upgrade(admins: set<string>) returns (ok: bool)
      requires Valid() && table.Before?
      modifies this
      ensures Valid()
      ensures ok <==> PreflightAll(old(table).was, admins)
      ensures ok ==> table == Current(UpgradeAll(old(table).was))
      ensures ok ==> CheckedAll(table.rows) && ReversibleAll(table.rows)
      ensures ok ==> |table.rows| == |old(table).was|
      ensures ok ==> forall k :: 0 <= k < |table.rows| ==> Carried(old(table).was[k], table.rows[k])
      ensures !ok ==> table == old(table)
    {
      ok := PreflightAll(table.was, admins);
      if ok {
        var rows := UpgradeAll(table.was);
        forall k | 0 <= k < |rows|
          ensures Checked(rows[k]) && Reversible(rows[k]) && Carried(table.was[k], rows[k])
        {
          UpgradeSatisfiesChecks(table.was[k], admins);
          UpgradeCarries(table.was[k], admins);
        }
        table := Current(rows);
      }
    }

    /**
     The downgrade, refused when other approval data exist or columns would lose
     data.  It loses nothing: upgrading what is left gives the rows back, and the
     preflight lets that happen exactly when every row is readmitted.
     */
    method Downgrade(othersEmpty: bool) returns (ok: bool)
      requires Valid() && table.Current?
      modifies this
      ensures Valid()
      ensures ok <==> othersEmpty && forall r :: r in old(table).rows ==> Upgraded(Downgraded(r)) == r
      ensures ok ==> table == Before(DowngradeAll(old(table).rows))
      ensures ok ==> UpgradeAll(table.was) == old(table).rows
      ensures ok ==> forall admins :: PreflightAll(table.was, admins) <==>
                       forall k :: 0 <= k < |old(table).rows| ==> Readmitted(old(table).rows[k], admins)
      ensures !ok ==> table == old(table)
    {
      ghost var rows := table.rows;
      forall r | r in rows
        ensures Upgraded(Downgraded(r)) == r <==> Reversible(r)
      {
        if Reversible(r) {
          ReUpgradeExactly(r, {});
        } else {
          IrreversibleLost(r);
        }
      }
      ok := othersEmpty && ReversibleAll(table.rows);
      if ok {
        forall admins: set<string>
          ensures PreflightAll(DowngradeAll(rows), admins) <==>
                  forall k :: 0 <= k < |rows| ==> Readmitted(rows[k], admins)
        {
          DowngradeReversible(rows, admins);
        }
        DowngradeReversible(rows, {});
        table := Before(DowngradeAll(table.rows));
      }
    }

    /**
     * Up, down and up again: every step succeeds, the rows come back with only
     * their timestamps normalised, and the second upgrade makes the same table.
     */
    method UpDownUp(admins: set<string>) returns (ok: bool)
      requires Valid() && table.Before?
      modifies this
      ensures Valid()
      ensures ok <==> PreflightAll(old(table).was, admins)
      ensures ok ==> table == Current(UpgradeAll(old(table).was))
      ensures !ok ==> table == old(table)
    {
      ghost var start := table.was;
      ok := Upgrade(admins);
      if ok {
        ReversibleRows(table.rows);
        var down := Downgrade(true);
        RoundTrip(start, admins);
        assert table == Before(NormaliseAll(start));
        var again := Upgrade(admins);
        assert down && again;
      }
    }
  }

  lemma ReversibleRows(rows: seq<NewSession>)
    requires CheckedAll(rows) && ReversibleAll(rows)
    ensures forall r :: r in rows ==> Upgraded(Downgraded(r)) == r
  {
    forall r | r in rows
      ensures Upgraded(Downgraded(r)) == r
    {
      ReUpgradeExactly(r, {});
    }
  }

  /** Upgrade then downgrade normalises the timestamps and nothing else; a second upgrade repeats the first. */
  lemma RoundTrip(rows: seq<Session>, admins: set<string>)
    requires PreflightAll(rows, admins)
    ensures DowngradeAll(UpgradeAll(rows)) == NormaliseAll(rows)
    ensures PreflightAll(NormaliseAll(rows), admins)
    ensures UpgradeAll(NormaliseAll(rows)) == UpgradeAll(rows)
  {
    forall k | 0 <= k < |rows|
      ensures DowngradeAll(UpgradeAll(rows))[k] == NormaliseAll(rows)[k]
      ensures Preflight(NormaliseAll(rows)[k], admins)
      ensures UpgradeAll(NormaliseAll(rows))[k] == UpgradeAll(rows)[k]
    {
      NormalisedUpgradesAlike(rows[k], admins);
    }
  }
}
