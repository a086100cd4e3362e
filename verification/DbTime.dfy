/**
 Timestamps as text (src/utils/dbtime.rs, and the second calendar of
 src/local_api/schema/file_query.rs): splitting unix seconds into a civil date,
 printing it at fixed width, and the order of the printed text.
 */
module DbTime {

  // ---- The calendar, as a reference -------------------------------------------------------------

  predicate IsLeap(y: nat)
  {
    y % 4 == 0 && (y % 100 != 0 || y % 400 == 0)
  }

  function YearDays(y: nat): nat
  {
    if IsLeap(y) then 366 else 365
  }

  function MonthLengths(y: nat): (md: seq<nat>)
    ensures |md| == 12 && forall i :: 0 <= i < 12 ==> 28 <= md[i] <= 31
  {
    if IsLeap(y) then [31, 29, 31, 30, 31, 30, 31, 31, 30, 31, 30, 31]
    else [31, 28, 31, 30, 31, 30, 31, 31, 30, 31, 30, 31]
  }

  /** Thirty days have April, June, September and November. */
  lemma {:induction false} MonthLengthRule(y: nat, month: nat)
    requires 1 <= month <= 12
    ensures MonthLengths(y)[month - 1]
         == if month == 2 then (if IsLeap(y) then 29 else 28) else if month in {4, 6, 9, 11} then 30 else 31
  {
  }

  datatype Civil = Civil(year: nat, month: nat, day: nat, hour: nat, minute: nat, second: nat)

  predicate ValidCivil(c: Civil)
  {
    && 1970 <= c.year && 1 <= c.month <= 12 && 1 <= c.day <= MonthLengths(c.year)[c.month - 1]
    && c.hour < 24 && c.minute < 60 && c.second < 60
  }

  /** Days from 1970-01-01 to the first day of year `y`. */
  function DaysBefore(y: nat): nat
    requires y >= 1970
  {
    if y == 1970 then 0 else DaysBefore(y - 1) + YearDays(y - 1)
  }

  /** Days of the first `m` months of year `y`. */
  function MonthDays(y: nat, m: nat): nat
    requires m <= 12
    decreases m
  {
    if m == 0 then 0 else MonthDays(y, m - 1) + MonthLengths(y)[m - 1]
  }

  function DayNumber(c: Civil): nat
    requires ValidCivil(c)
  {
    DaysBefore(c.year) + MonthDays(c.year, c.month - 1) + (c.day - 1)
  }

  /** The unix time of a civil date. */
  function SecsOf(c: Civil): nat
    requires ValidCivil(c)
  {
    86400 * DayNumber(c) + 3600 * c.hour + 60 * c.minute + c.second
  }

  // ---- The split, as loops -----------------------------------------------------------------------

  lemma {:induction false} YearIsTwelveMonths(y: nat)
    ensures MonthDays(y, 12) == YearDays(y)
  {
    var md := MonthLengths(y);
    assert MonthDays(y, 4) == md[0] + md[1] + md[2] + md[3];
    assert MonthDays(y, 8) == MonthDays(y, 4) + md[4] + md[5] + md[6] + md[7];
    assert MonthDays(y, 12) == MonthDays(y, 8) + md[8] + md[9] + md[10] + md[11];
  }

  /** The year and month loops of `split_unix_secs`. */
  method SplitDays(dayNumber: nat) returns (year: nat, month: nat, day: nat)
    ensures 1970 <= year && 1 <= month <= 12 && 1 <= day <= MonthLengths(year)[month - 1]
    ensures DaysBefore(year) + MonthDays(year, month - 1) + (day - 1) == dayNumber
  {
    var days: nat := dayNumber;
    year := 1970;
    while true
      invariant year >= 1970 && DaysBefore(year) + days == dayNumber
      decreases days
    {
      var dy := if IsLeap(year) then 366 else 365;
      if days < dy {
        break;
      }
      days := days - dy;
      year := year + 1;
    }
    YearIsTwelveMonths(year);
    var md := MonthLengths(year);
    month := 1;
    while month <= 12
      invariant 1 <= month <= 13
      invariant DaysBefore(year) + MonthDays(year, month - 1) + days == dayNumber
      invariant days < YearDays(year) && MonthDays(year, month - 1) + days < YearDays(year)
    {
      var dm := md[month - 1];
      if days < dm {
        break;
      }
      days := days - dm;
      month := month + 1;
    }
    day := days + 1;
  }

  method SplitUnixSecs(secs: nat) returns (c: Civil)
    ensures ValidCivil(c) && SecsOf(c) == secs
  {
    var ss := secs % 60;
    var t := secs / 60;
    var mm := t % 60;
    t := t / 60;
    var hh := t % 24;
    var year, month, day := SplitDays(t / 24);
    c := Civil(year, month, day, hh, mm, ss);
  }

  // ---- The order of civil dates is the order of times --------------------------------------------

  predicate Before(a: Civil, b: Civil)
  {
    || a.year < b.year
    || (a.year == b.year && (a.month < b.month
        || (a.month == b.month && (a.day < b.day
            || (a.day == b.day && (a.hour < b.hour
                || (a.hour == b.hour && (a.minute < b.minute
                    || (a.minute == b.minute && a.second < b.second)))))))))
  }

  lemma {:induction false} YearsGrow(y: nat, z: nat)
    requires 1970 <= y < z
    ensures DaysBefore(y) + YearDays(y) <= DaysBefore(z)
    decreases z
  {
    if y + 1 < z {
      YearsGrow(y, z - 1);
    }
  }

  lemma {:induction false} MonthsGrow(y: nat, m: nat, n: nat)
    requires m < n <= 12
    ensures MonthDays(y, m) + MonthLengths(y)[m] <= MonthDays(y, n)
    decreases n
  {
    if m + 1 < n {
      MonthsGrow(y, m, n - 1);
    }
  }

  lemma {:induction false} EarlierDay(a: Civil, b: Civil)
    requires ValidCivil(a) && ValidCivil(b)
    requires a.year < b.year || (a.year == b.year && (a.month < b.month || (a.month == b.month && a.day < b.day)))
    ensures DayNumber(a) < DayNumber(b)
  {
    hide MonthLengths;
    if a.year < b.year {
      YearsGrow(a.year, b.year);
      YearIsTwelveMonths(a.year);
      DayInYear(a);
    } else if a.month < b.month {
      MonthsGrow(a.year, a.month - 1, b.month - 1);
    }
  }

  lemma {:induction false} DayInYear(a: Civil)
    requires ValidCivil(a)
    ensures DayNumber(a) < DaysBefore(a.year) + YearDays(a.year)
  {
    hide MonthLengths;
    YearIsTwelveMonths(a.year);
    MonthsGrow(a.year, a.month - 1, 12);
  }

  lemma {:induction false} BeforeIsEarlier(a: Civil, b: Civil)
    requires ValidCivil(a) && ValidCivil(b)
    ensures Before(a, b) <==> SecsOf(a) < SecsOf(b)
    ensures a == b <==> SecsOf(a) == SecsOf(b)
  {
    hide DayNumber, MonthLengths;
    if a.year == b.year && a.month == b.month && a.day == b.day {
      assert DayNumber(a) == DayNumber(b) by { SameDay(a, b); }
    } else if a.year < b.year || (a.year == b.year && (a.month < b.month || (a.month == b.month && a.day < b.day))) {
      EarlierDay(a, b);
    } else {
      EarlierDay(b, a);
    }
  }

  lemma {:induction false} SameDay(a: Civil, b: Civil)
    requires ValidCivil(a) && ValidCivil(b) && a.year == b.year && a.month == b.month && a.day == b.day
    ensures DayNumber(a) == DayNumber(b)
  {
  }

  // ---- Text ------------------------------------------------------------------------------------------

  /** `{:0w}`: at least `w` digits. */
  function Pad(n: nat, w: nat): string
    decreases n + w
  {
    if w == 0 && n == 0 then "" else Pad(n / 10, if w > 0 then w - 1 else 0) + [DigitChar(n % 10)]
  }

  function DigitChar(d: nat): char
    requires d < 10
  {
    ['0', '1', '2', '3', '4', '5', '6', '7', '8', '9'][d]
  }

  function TenTo(w: nat): (p: nat)
    ensures p > 0
  {
    if w == 0 then 1 else 10 * TenTo(w - 1)
  }

  /** `YYYY-MM-DDThh:mm:ss` and the given ending. */
  function Printed(c: Civil, ending: string): string
  {
    Pad(c.year, 4) + (['-'] + (Pad(c.month, 2) + (['-'] + (Pad(c.day, 2) + (['T'] + (Pad(c.hour, 2)
    + ([':'] + (Pad(c.minute, 2) + ([':'] + (Pad(c.second, 2) + ending))))))))))
  }

  function SecsText(c: Civil): string
  {
    Printed(c, ['Z'])
  }

  function MillisText(c: Civil, ms: nat): string
  {
    Printed(c, ['.'] + (Pad(ms, 3) + ['Z']))
  }

  // ---- Reading a text back ---------------------------------------------------------------------

  function DigitOf(c: char): nat
  {
    if '0' <= c <= '9' then c as nat - '0' as nat else 0
  }

  /** The number a string of digits stands for. */
  function Decimal(s: string): nat
  {
    if s == "" then 0 else 10 * Decimal(s[..|s| - 1]) + DigitOf(s[|s| - 1])
  }

  lemma {:induction false} PadReadBack(n: nat, w: nat)
    ensures Decimal(Pad(n, w)) == n && forall k :: 0 <= k < |Pad(n, w)| ==> '0' <= Pad(n, w)[k] <= '9'
    decreases n + w
  {
    if w > 0 || n > 0 {
      var before := Pad(n / 10, if w > 0 then w - 1 else 0);
      PadReadBack(n / 10, if w > 0 then w - 1 else 0);
      assert (before + [DigitChar(n % 10)])[..|before|] == before;
    }
  }

  lemma {:induction false} FieldFirst(field: string, mark: char, rest: string)
    ensures var t := field + ([mark] + rest);
            t[..|field|] == field && t[|field|] == mark && t[|field| + 1..] == rest
  {
  }

  /** `YYYY-MM-DDThh:mm:ss`: the separators in their places, and every field the number it names. */
  ghost predicate Reads(t: string, c: Civil, ending: string)
  {
    && |t| == 19 + |ending| && t[19..] == ending
    && t[4] == '-' && t[7] == '-' && t[10] == 'T' && t[13] == ':' && t[16] == ':'
    && Decimal(t[..4]) == c.year && Decimal(t[5..7]) == c.month && Decimal(t[8..10]) == c.day
    && Decimal(t[11..13]) == c.hour && Decimal(t[14..16]) == c.minute && Decimal(t[17..19]) == c.second
  }

  lemma {:induction false} PadField(n: nat, w: nat)
    requires n < TenTo(w)
    ensures |Pad(n, w)| == w && Decimal(Pad(n, w)) == n
  {
    PadWidth(n, w);
    PadReadBack(n, w);
  }

  lemma {:induction false} PrintedReads(c: Civil, ending: string)
    requires ValidCivil(c) && c.year < 10000
    ensures Reads(Printed(c, ending), c, ending)
  {
    hide Pad, Decimal, MonthLengths;
    assert TenTo(2) == 100;
    assert TenTo(4) == 10000;
    PadField(c.year, 4);
    PadField(c.month, 2);
    PadField(c.day, 2);
    PadField(c.hour, 2);
    PadField(c.minute, 2);
    PadField(c.second, 2);
    SixFields(Pad(c.year, 4), Pad(c.month, 2), Pad(c.day, 2), Pad(c.hour, 2), Pad(c.minute, 2), Pad(c.second, 2), ending);
  }

  lemma {:induction false} SixFields(y: string, mo: string, d: string, h: string, mi: string, s: string, ending: string)
    requires |y| == 4 && |mo| == 2 && |d| == 2 && |h| == 2 && |mi| == 2 && |s| == 2
    ensures var t := y + (['-'] + (mo + (['-'] + (d + (['T'] + (h + ([':'] + (mi + ([':'] + (s + ending))))))))));
            && |t| == 19 + |ending| && t[19..] == ending
            && t[4] == '-' && t[7] == '-' && t[10] == 'T' && t[13] == ':' && t[16] == ':'
            && t[..4] == y && t[5..7] == mo && t[8..10] == d && t[11..13] == h && t[14..16] == mi && t[17..19] == s
  {
    var t5 := s + ending;
    var t4 := mi + ([':'] + t5);
    var t3 := h + ([':'] + t4);
    var t2 := d + (['T'] + t3);
    var t1 := mo + (['-'] + t2);
    var t := y + (['-'] + t1);
    FieldFirst(y, '-', t1);
    FieldFirst(mo, '-', t2);
    FieldFirst(d, 'T', t3);
    FieldFirst(h, ':', t4);
    FieldFirst(mi, ':', t5);
    assert t[5..] == t1 && t[8..] == t2 && t[11..] == t3 && t[14..] == t4 && t[17..] == t5;
    assert t[5..7] == t1[..2] && t[8..10] == t2[..2] && t[11..13] == t3[..2] && t[14..16] == t4[..2] && t[17..19] == t5[..2];
  }

  /** Byte-wise comparison, as SQLite orders TEXT. */
  predicate LexLess(a: string, b: string)
  {
    if b == [] then false
    else if a == [] then true
    else a[0] < b[0] || (a[0] == b[0] && LexLess(a[1..], b[1..]))
  }

  lemma {:induction false} LexHead(c: char, d: char, x: string, y: string)
    ensures LexLess([c] + x, [d] + y) <==> c < d || (c == d && LexLess(x, y))
  {
    assert ([c] + x)[1..] == x && ([d] + y)[1..] == y;
  }

  lemma {:induction false} PadWidth(n: nat, w: nat)
    ensures |Pad(n, w)| >= w
    ensures |Pad(n, w)| == w <==> n < TenTo(w)
    decreases n + w
  {
    if w > 0 {
      PadWidth(n / 10, w - 1);
    } else if n > 0 {
      PadWidth(n / 10, 0);
    }
  }

  lemma {:induction false} DigitOrder(d: nat, e: nat)
    requires d < 10 && e < 10
    ensures DigitChar(d) < DigitChar(e) <==> d < e
    ensures DigitChar(d) == DigitChar(e) <==> d == e
  {
  }

  /** Fields of one width compare as their numbers, then as what follows. */
  lemma {:induction false} PadOrder(n: nat, m: nat, w: nat, x: string, y: string)
    requires n < TenTo(w) && m < TenTo(w)
    ensures LexLess(Pad(n, w) + x, Pad(m, w) + y) <==> n < m || (n == m && LexLess(x, y))
    decreases w
  {
    hide DigitChar, LexLess;
    if w == 0 {
      assert Pad(n, w) + x == x && Pad(m, w) + y == y;
    } else {
      var dn, dm := [DigitChar(n % 10)], [DigitChar(m % 10)];
      assert Pad(n, w) + x == Pad(n / 10, w - 1) + (dn + x);
      assert Pad(m, w) + y == Pad(m / 10, w - 1) + (dm + y);
      PadOrder(n / 10, m / 10, w - 1, dn + x, dm + y);
      LexHead(DigitChar(n % 10), DigitChar(m % 10), x, y);
      DigitOrder(n % 10, m % 10);
    }
  }

  predicate FourDigitYear(c: Civil)
  {
    c.year < 10000
  }

  /** The part of the text after the date. */
  function TimeText(c: Civil, ending: string): string
  {
    Pad(c.hour, 2) + ([':'] + (Pad(c.minute, 2) + ([':'] + (Pad(c.second, 2) + ending))))
  }

  lemma {:induction false} TimeOrder(a: Civil, b: Civil, x: string, y: string)
    requires ValidCivil(a) && ValidCivil(b)
    ensures LexLess(TimeText(a, x), TimeText(b, y))
       <==> a.hour < b.hour || (a.hour == b.hour && (a.minute < b.minute || (a.minute == b.minute
            && (a.second < b.second || (a.second == b.second && LexLess(x, y))))))
  {
    hide Pad, LexLess, MonthLengths;
    assert TenTo(2) == 100;
    var sa, sb := Pad(a.second, 2) + x, Pad(b.second, 2) + y;
    var ma, mb := Pad(a.minute, 2) + ([':'] + sa), Pad(b.minute, 2) + ([':'] + sb);
    PadOrder(a.second, b.second, 2, x, y);
    LexHead(':', ':', sa, sb);
    PadOrder(a.minute, b.minute, 2, [':'] + sa, [':'] + sb);
    LexHead(':', ':', ma, mb);
    PadOrder(a.hour, b.hour, 2, [':'] + ma, [':'] + mb);
  }

  /** Printed dates compare as the dates, then as their endings. */
  lemma {:induction false} PrintedOrder(a: Civil, b: Civil, x: string, y: string)
    requires ValidCivil(a) && ValidCivil(b) && FourDigitYear(a) && FourDigitYear(b)
    ensures LexLess(Printed(a, x), Printed(b, y))
       <==> Before(a, b) || (a == b && LexLess(x, y))
  {
    hide Pad, LexLess, MonthLengths;
    assert TenTo(2) == 100;
    assert TenTo(4) == 10000;
    TimeOrder(a, b, x, y);
    var ta, tb := TimeText(a, x), TimeText(b, y);
    var da, db := Pad(a.day, 2) + (['T'] + ta), Pad(b.day, 2) + (['T'] + tb);
    var ma, mb := Pad(a.month, 2) + (['-'] + da), Pad(b.month, 2) + (['-'] + db);
    LexHead('T', 'T', ta, tb);
    PadOrder(a.day, b.day, 2, ['T'] + ta, ['T'] + tb);
    LexHead('-', '-', da, db);
    PadOrder(a.month, b.month, 2, ['-'] + da, ['-'] + db);
    LexHead('-', '-', ma, mb);
    PadOrder(a.year, b.year, 4, ['-'] + ma, ['-'] + mb);
  }

  lemma {:induction false} LexIrreflexive(a: string)
    ensures !LexLess(a, a)
    decreases |a|
  {
    if a != [] {
      LexIrreflexive(a[1..]);
    }
  }

  // ---- Timestamps ---------------------------------------------------------------------------------

  /** The civil date at unix time `secs`. */
  ghost function CivilAt(secs: nat): (c: Civil)
    ensures ValidCivil(c) && SecsOf(c) == secs
  {
    CivilExists(secs);
    var c :| ValidCivil(c) && SecsOf(c) == secs;
    c
  }

  /** There is only one. */
  lemma {:induction false} OnlyCivilAt(c: Civil)
    requires ValidCivil(c)
    ensures c == CivilAt(SecsOf(c))
  {
    hide SecsOf;
    BeforeIsEarlier(c, CivilAt(SecsOf(c)));
  }

  /** The text of the civil date at unix time `secs`. */
  ghost function SecsTextAt(secs: nat): string
  {
    SecsText(CivilAt(secs))
  }

  ghost function MillisTextAt(millis: nat): string
  {
    MillisText(CivilAt(millis / 1000), millis % 1000)
  }

  lemma {:induction false} CivilExists(secs: nat)
    ensures exists c :: ValidCivil(c) && SecsOf(c) == secs
  {
    var year, days := YearAt(1970, secs / 86400);
    YearIsTwelveMonths(year);
    var month, day := MonthAt(year, 1, days);
    var tod := secs % 86400;
    TimeOfDay(tod);
    var c := Civil(year, month, day, tod / 3600, tod % 3600 / 60, tod % 60);
    assert ValidCivil(c) && SecsOf(c) == secs;
  }

  lemma {:induction false} YearAt(y: nat, days: nat) returns (year: nat, rest: nat)
    requires y >= 1970
    ensures year >= y && rest < YearDays(year) && DaysBefore(year) + rest == DaysBefore(y) + days
    decreases days
  {
    if days < YearDays(y) {
      year, rest := y, days;
    } else {
      year, rest := YearAt(y + 1, days - YearDays(y));
    }
  }

  lemma {:induction false} MonthAt(y: nat, m: nat, days: nat) returns (month: nat, day: nat)
    requires 1 <= m <= 13 && MonthDays(y, m - 1) + days < MonthDays(y, 12)
    ensures m <= month <= 12 && 1 <= day <= MonthLengths(y)[month - 1]
    ensures MonthDays(y, month - 1) + (day - 1) == MonthDays(y, m - 1) + days
    decreases 13 - m
  {
    if days < MonthLengths(y)[m - 1] {
      month, day := m, days + 1;
    } else {
      month, day := MonthAt(y, m + 1, days - MonthLengths(y)[m - 1]);
    }
  }

  /** `unix_secs_to_iso8601` of dbtime.rs */
  method UnixSecsToIso(secs: nat) returns (text: string)
    ensures text == SecsTextAt(secs)
  {
    hide Pad, SecsOf;
    var c := SplitUnixSecs(secs);
    OnlyCivilAt(c);
    text := SecsText(c);
  }

  /** `unix_millis_to_iso8601` */
  method UnixMillisToIso(millis: nat) returns (text: string)
    ensures text == MillisTextAt(millis)
  {
    hide Pad, SecsOf;
    var c := SplitUnixSecs(millis / 1000);
    OnlyCivilAt(c);
    text := MillisText(c, millis % 1000);
  }

  /** `iso_from_unix_millis`: sub-second digits are dropped, negative times clamped. */
  method IsoFromUnixMillis(millis: int) returns (text: string)
    ensures text == SecsTextAt((if millis < 0 then 0 else millis) / 1000)
  {
    text := UnixSecsToIso((if millis < 0 then 0 else millis) / 1000);
  }

  /** `unix_secs_to_iso8601` of file_query.rs: empty up to the epoch, the same text after it. */
  method FileQueryIso(secs: int) returns (text: string)
    ensures secs <= 0 ==> text == ""
    ensures secs > 0 ==> text == SecsTextAt(secs)
  {
    hide Pad;
    if secs <= 0 {
      return "";
    }
    var days: nat := secs / 86400;
    var year, remaining := 1970, days;
    while true
      invariant year >= 1970 && remaining >= 0 && DaysBefore(year) + remaining == days
      decreases remaining
    {
      var leap := IsLeap(year);
      var dy := if leap then 366 else 365;
      if remaining < dy {
        break;
      }
      remaining := remaining - dy;
      year := year + 1;
    }
    YearIsTwelveMonths(year);
    var md := MonthLengths(year);
    var month := 1;
    for i := 0 to 12
      invariant month == i + 1 && DaysBefore(year) + MonthDays(year, i) + remaining == days
      invariant remaining >= 0 && MonthDays(year, i) + remaining < YearDays(year)
    {
      if remaining < md[i] {
        break;
      }
      remaining := remaining - md[i];
      month := month + 1;
    }
    var tod := secs % 86400;
    var c := Civil(year, month, remaining + 1, tod / 3600, tod % 3600 / 60, tod % 60);
    TimeOfDay(tod);
    OnlyCivilAt(c);
    text := SecsText(c);
  }

  lemma {:induction false} TimeOfDay(tod: nat)
    requires tod < 86400
    ensures 3600 * (tod / 3600) + 60 * (tod % 3600 / 60) + tod % 60 == tod
    ensures tod / 3600 < 24 && tod % 3600 / 60 < 60
  {
    var h, r := tod / 3600, tod % 3600;
    assert r % 60 == tod % 60;
  }

  // ---- Before year 10000 -----------------------------------------------------------------------------

  function LeapsUpTo(y: nat): int
  {
    y / 4 - y / 100 + y / 400
  }

  lemma {:induction false} LeapStep(y: nat)
    requires y > 0
    ensures LeapsUpTo(y) == LeapsUpTo(y - 1) + if IsLeap(y) then 1 else 0
  {
    DivStep(y, 4);
    DivStep(y, 100);
    DivStep(y, 400);
    assert y % 100 == 0 ==> y % 4 == 0;
    assert y % 400 == 0 ==> y % 100 == 0;
  }

  lemma {:induction false} DivStep(y: nat, k: nat)
    requires y > 0 && (k == 4 || k == 100 || k == 400)
    ensures y / k == (y - 1) / k + if y % k == 0 then 1 else 0
  {
  }

  lemma {:induction false} DaysBeforeClosed(y: nat)
    requires y >= 1970
    ensures DaysBefore(y) == 365 * (y - 1970) + LeapsUpTo(y - 1) - LeapsUpTo(1969)
  {
    if y > 1970 {
      DaysBeforeClosed(y - 1);
      LeapStep(y - 1);
    }
  }

  /** 10000-01-01T00:00:00Z */
  const YEAR_10000_SECS: nat := 253402300800

  lemma {:induction false} FourDigitYearIff(c: Civil)
    requires ValidCivil(c)
    ensures FourDigitYear(c) <==> SecsOf(c) < YEAR_10000_SECS
  {
    hide MonthLengths, DayNumber;
    DaysBeforeClosed(10000);
    assert DaysBefore(10000) == 2932897;
    DayInYear(c);
    if c.year < 10000 {
      YearsGrow(c.year, 10000);
    } else {
      if c.year > 10000 {
        YearsGrow(10000, c.year);
      }
      DayFromYear(c);
    }
  }

  lemma {:induction false} DayFromYear(c: Civil)
    requires ValidCivil(c)
    ensures DaysBefore(c.year) <= DayNumber(c)
  {
  }

  lemma {:induction false} PrintedWidth(c: Civil, ending: string)
    requires ValidCivil(c)
    ensures |Printed(c, ending)| >= 19 + |ending|
    ensures |Printed(c, ending)| == 19 + |ending| <==> FourDigitYear(c)
  {
    hide Pad, MonthLengths;
    assert TenTo(2) == 100;
    assert TenTo(4) == 10000;
    PadWidth(c.year, 4);
    PadWidth(c.month, 2);
    PadWidth(c.day, 2);
    PadWidth(c.hour, 2);
    PadWidth(c.minute, 2);
    PadWidth(c.second, 2);
  }

  /** The text has its fixed width exactly before year 10000. */
  lemma {:induction false} FixedWidthIff(secs: nat)
    ensures |SecsTextAt(secs)| == 20 <==> secs < YEAR_10000_SECS
  {
    hide Printed, SecsOf, ValidCivil;
    PrintedWidth(CivilAt(secs), ['Z']);
    FourDigitYearIff(CivilAt(secs));
  }

  /** Before year 10000, the text of a time reads as the civil date of that time. */
  lemma {:induction false} TextReadBack(millis: nat)
    requires millis / 1000 < YEAR_10000_SECS
    ensures Reads(SecsTextAt(millis / 1000), CivilAt(millis / 1000), "Z")
    ensures var t := MillisTextAt(millis);
            Reads(t, CivilAt(millis / 1000), t[19..])
            && |t| == 24 && t[19] == '.' && Decimal(t[20..23]) == millis % 1000 && t[23] == 'Z'
  {
    hide Printed, SecsOf, Pad, ValidCivil, Reads, Decimal;
    var c, ms := CivilAt(millis / 1000), millis % 1000;
    var ending := ['.'] + (Pad(ms, 3) + ['Z']);
    FourDigitYearIff(c);
    PrintedReads(c, ['Z']);
    PrintedReads(c, ending);
    ReadsEnding(Printed(c, ending), c, ending);
    assert TenTo(3) == 1000;
    PadWidth(ms, 3);
    PadReadBack(ms, 3);
    assert ending[1..4] == Pad(ms, 3) && ending[4] == 'Z';
    var t := Printed(c, ending);
    assert t[20..23] == t[19..][1..4];
  }

  lemma {:induction false} ReadsEnding(t: string, c: Civil, ending: string)
    requires Reads(t, c, ending)
    ensures |t| == 19 + |ending| && t[19..] == ending
  {
  }

  /** Before year 10000, text order is time order. */
  lemma {:induction false} TextOrderIsTimeOrder(s: nat, t: nat)
    requires s < YEAR_10000_SECS && t < YEAR_10000_SECS
    ensures LexLess(SecsTextAt(s), SecsTextAt(t)) <==> s < t
  {
    hide Printed, SecsOf, LexLess, ValidCivil;
    var a, b := CivilAt(s), CivilAt(t);
    FourDigitYearIff(a);
    FourDigitYearIff(b);
    PrintedOrder(a, b, ['Z'], ['Z']);
    LexIrreflexive(['Z']);
    BeforeIsEarlier(a, b);
  }

  lemma {:induction false} MillisEnding(m: nat, n: nat)
    requires m < 1000 && n < 1000
    ensures LexLess(['.'] + (Pad(m, 3) + ['Z']), ['.'] + (Pad(n, 3) + ['Z'])) <==> m < n
  {
    hide Pad, LexLess;
    assert TenTo(3) == 1000;
    LexHead('.', '.', Pad(m, 3) + ['Z'], Pad(n, 3) + ['Z']);
    PadOrder(m, n, 3, ['Z'], ['Z']);
    LexIrreflexive(['Z']);
  }

  /** The same with milliseconds, at width 24. */
  lemma {:induction false} MillisOrderIsTimeOrder(s: nat, t: nat)
    requires s / 1000 < YEAR_10000_SECS && t / 1000 < YEAR_10000_SECS
    ensures LexLess(MillisTextAt(s), MillisTextAt(t)) <==> s < t
    ensures |MillisTextAt(s)| == |MillisTextAt(t)| == 24
  {
    hide Printed, SecsOf, LexLess, Pad, ValidCivil;
    var a, b := CivilAt(s / 1000), CivilAt(t / 1000);
    var ea, eb := ['.'] + (Pad(s % 1000, 3) + ['Z']), ['.'] + (Pad(t % 1000, 3) + ['Z']);
    FourDigitYearIff(a);
    FourDigitYearIff(b);
    PrintedOrder(a, b, ea, eb);
    MillisEnding(s % 1000, t % 1000);
    BeforeIsEarlier(a, b);
    assert TenTo(3) == 1000;
    PadWidth(s % 1000, 3);
    PadWidth(t % 1000, 3);
    PrintedWidth(a, ea);
    PrintedWidth(b, eb);
  }

  /** At year 10000 the order breaks: the later text is the smaller one. */
  lemma {:induction false} OrderBreaksAtYear10000()
    ensures LexLess(SecsTextAt(YEAR_10000_SECS), SecsTextAt(YEAR_10000_SECS - 1))
  {
    hide SecsOf, LexLess, SecsText, ValidCivil;
    LastFourDigitYear(CivilAt(YEAR_10000_SECS - 1));
    FirstFiveDigitYear(CivilAt(YEAR_10000_SECS));
    FirstChars(SecsTextAt(YEAR_10000_SECS - 1), SecsTextAt(YEAR_10000_SECS));
  }

  lemma {:induction false} LastFourDigitYear(a: Civil)
    requires ValidCivil(a) && SecsOf(a) == YEAR_10000_SECS - 1
    ensures a.year == 9999 && |SecsText(a)| > 0 && SecsText(a)[0] == '9'
  {
    hide MonthLengths, DayNumber, Pad;
    FourDigitYearIff(a);
    DaysBeforeClosed(10000);
    assert DaysBefore(10000) == DaysBefore(9999) + YearDays(9999);
    if a.year < 9999 {
      YearsGrow(a.year, 9999);
      DayInYear(a);
    }
    YearText9999();
  }

  lemma {:induction false} YearText9999()
    ensures Pad(9999, 4) == "9999"
  {
    assert Pad(9, 1) == "9";
    assert Pad(99, 2) == "99";
    assert Pad(999, 3) == "999";
  }

  lemma {:induction false} FirstFiveDigitYear(b: Civil)
    requires ValidCivil(b) && SecsOf(b) == YEAR_10000_SECS
    ensures b.year == 10000 && |SecsText(b)| > 0 && SecsText(b)[0] == '1'
  {
    hide MonthLengths, DayNumber, Pad;
    FourDigitYearIff(b);
    DaysBeforeClosed(10000);
    if b.year > 10000 {
      YearsGrow(10000, b.year);
      DayFromYear(b);
    }
    YearText10000();
  }

  lemma {:induction false} YearText10000()
    ensures Pad(10000, 4) == "10000"
  {
    assert Pad(1, 0) == "1";
    assert Pad(10, 1) == "10";
    assert Pad(100, 2) == "100";
    assert Pad(1000, 3) == "1000";
  }

  lemma {:induction false} FirstChars(x: string, y: string)
    requires |x| > 0 && |y| > 0 && x[0] == '9' && y[0] == '1'
    ensures LexLess(y, x)
  {
  }

  /** Text order is time order on all times up to `bound` exactly when `bound` is before year 10000. */
  lemma {:induction false} TextOrderHoldsUpTo(bound: nat)
    ensures bound < YEAR_10000_SECS
       <==> forall s: nat, t: nat :: s <= bound && t <= bound ==> (LexLess(SecsTextAt(s), SecsTextAt(t)) <==> s < t)
  {
    hide LexLess, SecsTextAt;
    if bound < YEAR_10000_SECS {
      forall s: nat, t: nat | s <= bound && t <= bound ensures LexLess(SecsTextAt(s), SecsTextAt(t)) <==> s < t {
        TextOrderIsTimeOrder(s, t);
      }
    } else {
      OrderBreaksAtYear10000();
      assert YEAR_10000_SECS <= bound && YEAR_10000_SECS - 1 <= bound;
    }
  }
}
