/** The time stamp of a manifest: RFC 3339 text of a second count. */
module Timestamps {
  import opened Civil
  import opened Text
  import opened Versions

  datatype Time = Time(hour: int, minute: int, second: int)

  function TimeOf(rem: nat): Time {
    Time(rem / 3600, rem % 3600 / 60, rem % 60)
  }

  function Zeros(n: nat): string {
    if n == 0 then "" else "0" + Zeros(n - 1)
  }

  /** `{n:0width}`: the decimal digits, with zeros in front up to the width. */
  function Padded(width: nat, n: nat): string {
    var digits := Digits(n);
    Zeros(if |digits| < width then width - |digits| else 0) + digits
  }

  /** The parts of the time stamp. */
  function FieldsOf(secs: nat): (f: seq<nat>)
    ensures |f| == 6
    ensures f[0] >= 1970 && 1 <= f[1] <= 12 && 1 <= f[2] <= DaysIn(f[0], f[1])
    ensures f[3] <= 23 && f[4] <= 59 && f[5] <= 59
  {
    var d, t := FromDays(secs / 86400), TimeOf(secs % 86400);
    FromDaysIsCounted(secs / 86400);
    CountedNumber(secs / 86400);
    [d.year, d.month, d.day, t.hour, t.minute, t.second]
  }

  /** `now_rfc3339` for a given second count. */
  function Rfc3339(secs: nat): string {
    var f := FieldsOf(secs);
    Padded(4, f[0]) + ("-" + (Padded(2, f[1]) + ("-" + (Padded(2, f[2]) + ("T" + TimeText(f))))))
  }

  function TimeText(f: seq<nat>): string
    requires |f| == 6
  {
    Padded(2, f[3]) + (":" + (Padded(2, f[4]) + (":" + (Padded(2, f[5]) + "Z"))))
  }

  // ----- Later days have later dates

  predicate DateLess(a: Date, b: Date) {
    a.year < b.year || (a.year == b.year && (a.month < b.month || (a.month == b.month && a.day < b.day)))
  }

  lemma SuccessorGrows(d: Date)
    requires Valid(d)
    ensures DateLess(d, Successor(d))
  {
  }

  lemma DateLessChain(a: Date, b: Date, c: Date)
    requires DateLess(a, b) && DateLess(b, c)
    ensures DateLess(a, c)
  {
  }

  lemma {:induction false} CountedGrows(a: nat, b: nat)
    requires a < b
    ensures DateLess(Counted(a), Counted(b))
    decreases b
  {
    CountedNumber(b - 1);
    SuccessorGrows(Counted(b - 1));
    if a < b - 1 {
      CountedGrows(a, b - 1);
      DateLessChain(Counted(a), Counted(b - 1), Counted(b));
    }
  }

  // ----- The last second of the year 9999

  /** Seconds from 1970-01-01 to 10000-01-01. */
  const YEAR_10000: nat := 253402300800

  lemma EndOfYear9999(n: nat)
    requires n == 2932896
    ensures FromDays(n) == Date(9999, 12, 31) && FromDays(n + 1) == Date(10000, 1, 1)
  {
    assert YearOfEra(146036) == 399 && YearOfEra(146037) == 399 && Before(399) == 145731;
    FromDaysShape(n, 24, 146036, 399);
    FromDaysShape(n + 1, 24, 146037, 399);
    assert DayOfYear(9999, 305) == Date(9999, 12, 31) && DayOfYear(9999, 306) == Date(10000, 1, 1);
  }

  lemma YearBound(secs: nat)
    ensures FieldsOf(secs)[0] < 10000 <==> secs < YEAR_10000
  {
    var n, last: nat := secs / 86400, 2932896;
    EndOfYear9999(last);
    FromDaysIsCounted(n);
    FromDaysIsCounted(last);
    FromDaysIsCounted(last + 1);
    if n < last {
      CountedGrows(n, last);
    } else if n > last + 1 {
      CountedGrows(last + 1, n);
    }
    assert n <= last <==> secs < YEAR_10000;
  }

  // ----- The form of section 5.6 of RFC 3339

  /** Exactly `width` decimal digits. */
  function Fixed(width: nat, n: nat): (r: string)
    ensures |r| == width && AllDigits(r)
  {
    if width == 0 then "" else Fixed(width - 1, n / 10) + ['0' + (n % 10) as char]
  }

  function Power10(n: nat): (r: nat)
    ensures r >= 1
  {
    if n == 0 then 1 else 10 * Power10(n - 1)
  }

  lemma {:induction false} ZerosSnoc(n: nat)
    ensures Zeros(n + 1) == Zeros(n) + "0" && |Zeros(n)| == n
  {
    if n > 0 {
      ZerosSnoc(n - 1);
    }
  }

  lemma {:induction false} FixedZero(width: nat)
    ensures Fixed(width, 0) == Zeros(width)
  {
    if width > 0 {
      FixedZero(width - 1);
      ZerosSnoc(width - 1);
    }
  }

  lemma {:induction false} PaddedIsFixed(width: nat, n: nat)
    requires width > 0 && n < Power10(width)
    ensures Padded(width, n) == Fixed(width, n)
  {
    var last := ['0' + (n % 10) as char];
    if n < 10 {
      FixedZero(width - 1);
    } else {
      PaddedIsFixed(width - 1, n / 10);
      assert Padded(width, n) == Padded(width - 1, n / 10) + last;
    }
  }

  function Width(k: nat): nat {
    if k == 0 then 4 else 2
  }

  function Separator(k: nat): string {
    match k
    case 0 => "-"
    case 1 => "-"
    case 2 => "T"
    case 3 => ":"
    case 4 => ":"
    case _ => "Z"
  }

  /** Fixed-width fields from the `k`-th on, each followed by its separator. */
  function Render(f: seq<nat>, k: nat): string
    requires |f| == 6
    decreases 6 - k
  {
    if k >= 6 then "" else Fixed(Width(k), f[k]) + (Separator(k) + Render(f, k + 1))
  }

  /** Every field fits its width. */
  predicate Fits(f: seq<nat>) {
    |f| == 6 && f[0] < 10000 && forall k :: 1 <= k < 6 ==> f[k] < 100
  }

  lemma {:induction false} RenderLength(f: seq<nat>, k: nat)
    requires |f| == 6 && k <= 6
    ensures |Render(f, k)| == if k == 0 then 20 else 3 * (6 - k)
    decreases 6 - k
  {
    if k < 6 {
      RenderLength(f, k + 1);
    }
  }

  lemma {:induction false} DigitsFit(width: nat, n: nat)
    requires width > 0
    ensures |Digits(n)| <= width <==> n < Power10(width)
  {
    assert Power10(width) == 10 * Power10(width - 1);
    if n >= 10 {
      assert |Digits(n)| == |Digits(n / 10)| + 1;
      if width > 1 {
        DigitsFit(width - 1, n / 10);
      }
    }
  }

  /** Below the year 10000 the text is made of fixed-width fields. */
  lemma TextIsRendered(secs: nat)
    requires secs < YEAR_10000
    ensures Rfc3339(secs) == Render(FieldsOf(secs), 0) && Fits(FieldsOf(secs))
  {
    var f := FieldsOf(secs);
    YearBound(secs);
    assert Power10(2) == 100 && Power10(4) == 10000 by {
      assert Power10(1) == 10 && Power10(3) == 1000;
    }
    PaddedIsFixed(4, f[0]);
    forall k | 1 <= k < 6
      ensures Padded(2, f[k]) == Fixed(2, f[k])
    {
      PaddedIsFixed(2, f[k]);
    }
    assert Render(f, 6) == "" && Render(f, 5) == Fixed(2, f[5]) + "Z";
    assert Render(f, 3) == TimeText(f);
    assert Render(f, 1) == Fixed(2, f[1]) + ("-" + Render(f, 2));
  }

  /** The text has the twenty characters of the RFC 3339 form exactly below the year 10000. */
  lemma LengthIff(secs: nat)
    ensures |Rfc3339(secs)| == 20 <==> secs < YEAR_10000
  {
    var f := FieldsOf(secs);
    YearBound(secs);
    if f[0] < 10000 {
      TextIsRendered(secs);
      RenderLength(f, 0);
    } else {
      assert Power10(4) == 10000 by {
        assert Power10(2) == 100 && Power10(3) == 1000;
      }
      DigitsFit(4, f[0]);
      forall k | 1 <= k < 6
        ensures |Padded(2, f[k])| >= 2
      {
        PaddedLength(2, f[k]);
      }
      PaddedLength(4, f[0]);
    }
  }

  lemma PaddedLength(width: nat, n: nat)
    ensures |Padded(width, n)| == if |Digits(n)| < width then width else |Digits(n)|
  {
    ZerosSnoc(if |Digits(n)| < width then width - |Digits(n)| else 0);
  }

  // ----- Text order is time order

  lemma {:induction false} LessInPrefix(a: string, b: string, u: string, v: string)
    requires |a| == |b| && StringLess(a, b)
    ensures StringLess(a + u, b + v)
  {
    assert (a + u)[1..] == a[1..] + u && (b + v)[1..] == b[1..] + v;
    if a[0] == b[0] {
      LessInPrefix(a[1..], b[1..], u, v);
    }
  }

  lemma {:induction false} LessAfterPrefix(a: string, u: string, v: string)
    requires StringLess(u, v)
    ensures StringLess(a + u, a + v)
  {
    if |a| == 0 {
      assert a + u == u && a + v == v;
    } else {
      assert (a + u)[1..] == a[1..] + u && (a + v)[1..] == a[1..] + v;
      LessAfterPrefix(a[1..], u, v);
    }
  }

  lemma {:induction false} FixedLess(width: nat, a: nat, b: nat)
    requires a < b < Power10(width)
    ensures StringLess(Fixed(width, a), Fixed(width, b))
  {
    var x, y := ['0' + (a % 10) as char], ['0' + (b % 10) as char];
    if a / 10 < b / 10 {
      FixedLess(width - 1, a / 10, b / 10);
      LessInPrefix(Fixed(width - 1, a / 10), Fixed(width - 1, b / 10), x, y);
    } else {
      assert a / 10 == b / 10 && StringLess(x, y);
      LessAfterPrefix(Fixed(width - 1, a / 10), x, y);
    }
  }

  /** Lexicographic order of the fields from the `k`-th on. */
  predicate FieldsLess(a: seq<nat>, b: seq<nat>, k: nat)
    requires |a| == |b| == 6
    decreases 6 - k
  {
    k < 6 && (a[k] < b[k] || (a[k] == b[k] && FieldsLess(a, b, k + 1)))
  }

  lemma {:induction false} RenderLess(a: seq<nat>, b: seq<nat>, k: nat)
    requires Fits(a) && Fits(b) && FieldsLess(a, b, k)
    ensures StringLess(Render(a, k), Render(b, k))
    decreases 6 - k
  {
    var u, v := Separator(k) + Render(a, k + 1), Separator(k) + Render(b, k + 1);
    if a[k] < b[k] {
      assert Power10(2) == 100 && Power10(4) == 10000 by {
        assert Power10(1) == 10 && Power10(3) == 1000;
      }
      FixedLess(Width(k), a[k], b[k]);
      LessInPrefix(Fixed(Width(k), a[k]), Fixed(Width(k), b[k]), u, v);
    } else {
      RenderLess(a, b, k + 1);
      LessAfterPrefix(Separator(k), Render(a, k + 1), Render(b, k + 1));
      LessAfterPrefix(Fixed(Width(k), a[k]), u, v);
    }
  }

  /** The fields of a later day. */
  lemma LaterDay(s1: nat, s2: nat)
    requires s1 / 86400 < s2 / 86400
    ensures FieldsLess(FieldsOf(s1), FieldsOf(s2), 0)
  {
    FromDaysIsCounted(s1 / 86400);
    FromDaysIsCounted(s2 / 86400);
    CountedGrows(s1 / 86400, s2 / 86400);
    DateFieldsLess(FieldsOf(s1), FieldsOf(s2));
  }

  /** The fields of a later moment of the same day. */
  lemma LaterSameDay(s1: nat, s2: nat)
    requires s1 / 86400 == s2 / 86400 && s1 < s2
    ensures FieldsLess(FieldsOf(s1), FieldsOf(s2), 0)
  {
    TimesGrow(s1 % 86400, s2 % 86400);
    TimeFieldsLess(FieldsOf(s1), FieldsOf(s2));
  }

  lemma FieldsGrow(s1: nat, s2: nat)
    requires s1 < s2
    ensures FieldsLess(FieldsOf(s1), FieldsOf(s2), 0)
  {
    if s1 / 86400 < s2 / 86400 {
      LaterDay(s1, s2);
    } else {
      LaterSameDay(s1, s2);
    }
  }

  lemma DateFieldsLess(a: seq<nat>, b: seq<nat>)
    requires |a| == |b| == 6 && DateLess(Date(a[0], a[1], a[2]), Date(b[0], b[1], b[2]))
    ensures FieldsLess(a, b, 0)
  {
    assert a[2] < b[2] ==> FieldsLess(a, b, 2);
    assert a[1] < b[1] ==> FieldsLess(a, b, 1);
  }

  predicate TimeLess(a: Time, b: Time) {
    a.hour < b.hour || (a.hour == b.hour && (a.minute < b.minute || (a.minute == b.minute && a.second < b.second)))
  }

  lemma TimeParts(a: nat)
    ensures var t := TimeOf(a); a == 3600 * t.hour + 60 * t.minute + t.second && 0 <= t.minute < 60 && 0 <= t.second < 60
  {
    var hour, minute, second := a / 3600, a % 3600 / 60, a % 3600 % 60;
    LastSixty(a, 60 * hour + minute, second);
  }

  lemma LastSixty(a: nat, minutes: nat, second: nat)
    requires second < 60 && a == 60 * minutes + second
    ensures a % 60 == second
  {
  }

  lemma TimesGrow(a: nat, b: nat)
    requires a < b < 86400
    ensures TimeLess(TimeOf(a), TimeOf(b))
  {
    TimeParts(a);
    TimeParts(b);
  }

  lemma TimeFieldsLess(a: seq<nat>, b: seq<nat>)
    requires |a| == |b| == 6 && a[..3] == b[..3] && TimeLess(Time(a[3], a[4], a[5]), Time(b[3], b[4], b[5]))
    ensures FieldsLess(a, b, 0)
  {
    assert a[0] == a[..3][0] && a[1] == a[..3][1] && a[2] == a[..3][2];
    assert a[5] < b[5] ==> FieldsLess(a, b, 5);
    assert a[4] < b[4] ==> FieldsLess(a, b, 4);
    assert FieldsLess(a, b, 3);
    assert FieldsLess(a, b, 2);
    assert FieldsLess(a, b, 1);
  }

  lemma LaterTextIsGreater(s1: nat, s2: nat)
    requires s1 < s2 < YEAR_10000
    ensures StringLess(Rfc3339(s1), Rfc3339(s2))
  {
    TextIsRendered(s1);
    TextIsRendered(s2);
    FieldsGrow(s1, s2);
    RenderLess(FieldsOf(s1), FieldsOf(s2), 0);
  }

  /** Below the year 10000 the texts of two moments are in the order of the moments. */
  lemma TextOrderIsTimeOrder(s1: nat, s2: nat)
    requires s1 < YEAR_10000 && s2 < YEAR_10000
    ensures s1 < s2 <==> StringLess(Rfc3339(s1), Rfc3339(s2))
  {
    StringOrder(Rfc3339(s1), Rfc3339(s2), Rfc3339(s1));
    if s1 < s2 {
      LaterTextIsGreater(s1, s2);
    } else if s2 < s1 {
      LaterTextIsGreater(s2, s1);
    }
  }
}
