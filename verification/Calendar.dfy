/**
 The civil calendar stamp of a trash entry: seconds since 1970 (UTC) to YYYYMMDDTHHMMSSZ and back.
 The reference is the calendar itself, one day after the other from 1 January 1970.
 */
module Calendar {
  import opened Arith
  import opened CString
  import Digits
  import opened IntText

  /** Division as C has it: toward zero. */
  function Div(a: int, b: nat): int
    requires b > 0
  {
    if a >= 0 then a / b else 0 - (0 - a) / b
  }

  function Rem(a: int, b: nat): int
    requires b > 0
  {
    a - b * Div(a, b)
  }

  // ---------- the calendar, day by day ----------

  datatype Date = Date(y: int, m: int, d: int)

  /** Section 3.2.1 of ISO 8601: divisible by four, centuries by four hundred. */
  predicate Leap(y: int) {
    y % 4 == 0 && (y % 100 != 0 || y % 400 == 0)
  }

  function MonthLength(y: int, m: int): int {
    if m == 2 then (if Leap(y) then 29 else 28)
    else if m == 4 || m == 6 || m == 9 || m == 11 then 30
    else 31
  }

  predicate Valid(a: Date) {
    1 <= a.m <= 12 && 1 <= a.d <= MonthLength(a.y, a.m)
  }

  function NextDay(a: Date): Date {
    if a.d < MonthLength(a.y, a.m) then Date(a.y, a.m, a.d + 1)
    else if a.m < 12 then Date(a.y, a.m + 1, 1)
    else Date(a.y + 1, 1, 1)
  }

  function PreviousDay(a: Date): Date {
    if a.d > 1 then Date(a.y, a.m, a.d - 1)
    else if a.m > 1 then Date(a.y, a.m - 1, MonthLength(a.y, a.m - 1))
    else Date(a.y - 1, 12, 31)
  }

  /** The date `z` days after 1 January 1970 (before it, when `z` is negative). */
  ghost function CivilDay(z: int): Date
    decreases if z < 0 then 0 - z else z
  {
    if z == 0 then Date(1970, 1, 1)
    else if z > 0 then NextDay(CivilDay(z - 1))
    else PreviousDay(CivilDay(z + 1))
  }

  // ---------- counting days ----------

  /** Days before the year that begins on 1 March of `y`, counted from 1 January 1970. */
  function YearStart(y: int): int {
    365 * y + y / 4 - y / 100 + y / 400 - 719468
  }

  /** Days from 1 March to the first of a month, months counted from March. */
  function MonthStart(mp: int): int {
    (153 * mp + 2) / 5
  }

  function FromMarch(m: int): int {
    if m > 2 then m - 3 else m + 9
  }

  function DaysOf(a: Date): int {
    YearStart(if a.m <= 2 then a.y - 1 else a.y) + MonthStart(FromMarch(a.m)) + a.d - 1
  }

  lemma YearStep(y: int)
    ensures YearStart(y + 1) == YearStart(y) + if Leap(y + 1) then 366 else 365
  {
    CountStep(y, 4);
    CountStep(y, 100);
    CountStep(y, 400);
    assert (y + 1) % 400 == 0 ==> (y + 1) % 100 == 0;
    assert (y + 1) % 100 == 0 ==> (y + 1) % 4 == 0;
  }

  lemma CountStep(y: int, n: nat)
    requires n == 4 || n == 100 || n == 400
    ensures (y + 1) / n == y / n + if (y + 1) % n == 0 then 1 else 0
  {
  }

  lemma {:induction false} NextCounts(a: Date)
    requires Valid(a)
    ensures Valid(NextDay(a)) && DaysOf(NextDay(a)) == DaysOf(a) + 1
  {
    YearStep(a.y - 1);
    hide YearStart;
    assert FromMarch(a.m) < 11 && a.m != 12 ==> MonthStart(FromMarch(a.m + 1)) - MonthStart(FromMarch(a.m)) == if a.m == 2 then 28 else MonthLength(a.y, a.m);
  }

  lemma {:induction false} PreviousIsBefore(a: Date)
    requires Valid(a)
    ensures Valid(PreviousDay(a)) && NextDay(PreviousDay(a)) == a
  {
  }

  /** Counting agrees with the calendar. */
  lemma {:induction false} CivilCounts(z: int)
    ensures Valid(CivilDay(z)) && DaysOf(CivilDay(z)) == z
    decreases if z < 0 then 0 - z else z
  {
    if z > 0 {
      CivilCounts(z - 1);
      NextCounts(CivilDay(z - 1));
    } else if z < 0 {
      CivilCounts(z + 1);
      PreviousIsBefore(CivilDay(z + 1));
      NextCounts(CivilDay(z));
    }
  }

  predicate Earlier(a: Date, b: Date) {
    a.y < b.y || (a.y == b.y && (a.m < b.m || (a.m == b.m && a.d < b.d)))
  }

  lemma {:induction false} YearsGrow(y1: int, y2: int)
    requires y1 < y2
    ensures YearStart(y1) + 365 <= YearStart(y2)
    ensures Leap(y1 + 1) ==> YearStart(y1) + 366 <= YearStart(y2)
    decreases y2 - y1
  {
    YearStep(y1);
    if y1 + 1 < y2 {
      YearsGrow(y1 + 1, y2);
    }
  }

  /** The day within the year that begins in March. */
  lemma DayOfYear(a: Date)
    requires Valid(a)
    ensures 0 <= MonthStart(FromMarch(a.m)) + a.d - 1 < 366
    ensures MonthStart(FromMarch(a.m)) + a.d - 1 == 365 ==> a.m == 2 && Leap(a.y)
  {
  }

  lemma MonthsGrow(a: Date, b: Date)
    requires Valid(a) && Valid(b) && FromMarch(a.m) < FromMarch(b.m)
    ensures MonthStart(FromMarch(a.m)) + a.d - 1 < MonthStart(FromMarch(b.m))
  {
  }

  /** Later dates have higher counts. */
  lemma {:induction false} CountsGrow(a: Date, b: Date)
    requires Valid(a) && Valid(b) && Earlier(a, b)
    ensures DaysOf(a) < DaysOf(b)
  {
    hide YearStart, MonthStart, Leap, MonthLength;
    DayOfYear(a);
    DayOfYear(b);
    if FromMarch(a.m) < FromMarch(b.m) {
      MonthsGrow(a, b);
    }
    var ya := if a.m <= 2 then a.y - 1 else a.y;
    var yb := if b.m <= 2 then b.y - 1 else b.y;
    if ya < yb {
      YearsGrow(ya, yb);
    }
  }

  lemma CountsDecide(a: Date, b: Date)
    requires Valid(a) && Valid(b)
    ensures DaysOf(a) == DaysOf(b) ==> a == b
    ensures DaysOf(a) < DaysOf(b) ==> Earlier(a, b)
  {
    if Earlier(a, b) {
      CountsGrow(a, b);
    } else if Earlier(b, a) {
      CountsGrow(b, a);
    }
  }

  /** Only the calendar's date has a given count. */
  lemma CountIsCivil(a: Date, z: int)
    requires Valid(a) && DaysOf(a) == z
    ensures a == CivilDay(z)
  {
    CivilCounts(z);
    CountsDecide(a, CivilDay(z));
  }

  // ---------- the closed form ----------

  /** Days before year `n` of a 400-year era. */
  function EraDays(n: int): int {
    365 * n + n / 4 - n / 100
  }

  lemma EraYear(era: int, yoe: int)
    requires 0 <= yoe < 400
    ensures YearStart(era * 400 + yoe) == era * 146097 + EraDays(yoe) - 719468
  {
    var y := era * 400 + yoe;
    assert y / 4 == era * 100 + yoe / 4;
    assert y / 100 == era * 4 + yoe / 100;
    assert y / 400 == era;
  }

  /** A day of the era, split into century, leap cycle, year and day. */
  ghost predicate Split(doe: int, c: int, q: int, r: int, doy: int) {
    && 0 <= c < 4 && 0 <= q < 25 && 0 <= r < 4 && 0 <= doy < 366
    && doe == 36524 * c + 1461 * q + 365 * r + doy
    && (doy == 365 ==> r == 3 && (q < 24 || c == 3))
  }

  lemma SplitExists(doe: int)
    requires 0 <= doe < 146097
    ensures exists c, q, r, doy :: Split(doe, c, q, r, doy)
  {
    var c := if doe == 146096 then 3 else doe / 36524;
    var u := doe - 36524 * c;
    var q := u / 1461;
    var v := u % 1461;
    var r := if v == 1460 then 3 else v / 365;
    assert u == 1461 * q + v;
    assert Split(doe, c, q, r, v - 365 * r);
  }

  /** The divisions by 1460, 36524 and 146096 remove exactly the leap days: the year of the era. */
  lemma YearOfEra(doe: int, c: int, q: int, r: int, doy: int)
    requires Split(doe, c, q, r, doy)
    ensures (doe - doe / 1460 + doe / 36524 - doe / 146096) / 365 == 100 * c + 4 * q + r
    ensures EraDays(100 * c + 4 * q + r) == doe - doy
  {
    var n := 100 * c + 4 * q + r;
    var u := 24 * c + q + 365 * r + doy;
    var k := if u >= 1460 then 1 else 0;
    assert n / 4 == 25 * c + q && n / 100 == c;
    LeapDays(doe, 25 * c + q, u, k);
    Centuries(doe, c, q, r, doy);
    assert doe - doe / 1460 + doe / 36524 - doe / 146096 == 365 * n + doy - k;
  }

  lemma LeapDays(doe: int, n: int, u: int, k: int)
    requires doe == 1460 * n + u && 0 <= u < 2920 && k == (if u >= 1460 then 1 else 0)
    ensures doe / 1460 == n + k
  {
  }

  lemma Centuries(doe: int, c: int, q: int, r: int, doy: int)
    requires Split(doe, c, q, r, doy)
    ensures doe / 36524 - doe / 146096 == c
  {
    var v := 1461 * q + 365 * r + doy;
    assert 0 <= v <= 36524 && (v == 36524 ==> c == 3);
  }

  lemma MonthOfYear(doy: int)
    requires 0 <= doy < 366
    ensures var mp := (5 * doy + 2) / 153;
      0 <= mp < 12 && MonthStart(mp) <= doy && (mp < 11 ==> doy < MonthStart(mp + 1))
  {
  }

  lemma MonthFits(y: int, mp: int, doy: int)
    requires 0 <= mp < 12 && MonthStart(mp) <= doy < 366
    requires mp < 11 ==> doy < MonthStart(mp + 1)
    requires doy == 365 ==> Leap(y + 1)
    ensures var m := if mp < 10 then mp + 3 else mp - 9;
      FromMarch(m) == mp && Valid(Date(if m <= 2 then y + 1 else y, m, doy - MonthStart(mp) + 1))
  {
  }

  /** The last day of a March year is there in leap years only. */
  lemma SplitLeap(era: int, c: int, q: int, r: int, doe: int)
    requires Split(doe, c, q, r, 365)
    ensures Leap(era * 400 + (100 * c + 4 * q + r) + 1)
  {
    var n := 100 * c + 4 * q + 4;
    assert (era * 400 + n) % 4 == 0;
    if q < 24 {
      assert (era * 400 + n) % 100 == 4 * q + 4;
    } else {
      assert n == 400 && (era * 400 + n) % 400 == 0;
    }
  }

  lemma DivIs(a: int, b: nat)
    requires a >= 0 && b > 0
    ensures Div(a, b) == a / b
  {
  }

  /** The era of a day, rounding toward minus infinity with a division that rounds toward zero. */
  lemma EraOf(z: int)
    ensures var era := Div(if z >= 0 then z else z - 146096, 146097); 0 <= z - era * 146097 < 146097
  {
  }

  lemma YearFits(doe: int, yoe: int, doy: int)
    requires 0 <= doe < 146097
    requires yoe == (doe - doe / 1460 + doe / 36524 - doe / 146096) / 365
    requires doy == doe - EraDays(yoe)
    ensures 0 <= yoe < 400 && 0 <= doy < 366
    ensures doy == 365 ==> forall era: int :: Leap(era * 400 + yoe + 1)
  {
    SplitExists(doe);
    var c, q, r, dy :| Split(doe, c, q, r, dy);
    YearOfEra(doe, c, q, r, dy);
    if doy == 365 {
      forall era: int ensures Leap(era * 400 + yoe + 1) {
        SplitLeap(era, c, q, r, doe);
      }
    }
  }

  /** The closed form gives the calendar's date. */
  lemma FieldsAreCivil(z: int, era: int, yoe: int, doy: int, mp: int, m: int)
    requires 0 <= yoe < 400 && 0 <= doy < 366 && (doy == 365 ==> Leap(era * 400 + yoe + 1))
    requires z == era * 146097 + EraDays(yoe) + doy - 719468
    requires mp == (5 * doy + 2) / 153 && m == if mp < 10 then mp + 3 else mp - 9
    ensures Date(if m <= 2 then era * 400 + yoe + 1 else era * 400 + yoe, m, doy - MonthStart(mp) + 1) == CivilDay(z)
  {
    EraYear(era, yoe);
    MonthOfYear(doy);
    MonthFits(era * 400 + yoe, mp, doy);
    hide YearStart, EraDays, MonthStart, CivilDay, Leap;
    CountIsCivil(Date(if m <= 2 then era * 400 + yoe + 1 else era * 400 + yoe, m, doy - MonthStart(mp) + 1), z);
  }

  /** The date arithmetic of `_unisa_sd_stamp`, for a whole number of days. */
  method DateFields(z0: int) returns (y: int, m: int, d: int)
    ensures Date(y, m, d) == CivilDay(z0)
  {
    hide Div, CivilDay, Leap;
    var z := z0 + 719468;
    var era := Div(if z >= 0 then z else z - 146096, 146097);
    EraOf(z);
    var doe := z - era * 146097;
    DivIs(doe, 1460);
    DivIs(doe, 36524);
    DivIs(doe, 146096);
    DivIs(doe - doe / 1460 + doe / 36524 - doe / 146096, 365);
    var yoe := Div(doe - Div(doe, 1460) + Div(doe, 36524) - Div(doe, 146096), 365);
    y := yoe + era * 400;
    DivIs(yoe, 4);
    DivIs(yoe, 100);
    var doy := doe - (365 * yoe + Div(yoe, 4) - Div(yoe, 100));
    YearFits(doe, yoe, doy);
    DivIs(5 * doy + 2, 153);
    var mp := Div(5 * doy + 2, 153);
    DivIs(153 * mp + 2, 5);
    d := doy - Div(153 * mp + 2, 5) + 1;
    m := if mp < 10 then mp + 3 else mp - 9;
    FieldsAreCivil(z0, era, yoe, doy, mp, m);
    if m <= 2 {
      y := y + 1;
    }
  }

  // ---------- the text ----------

  function ZeroDigits(n: nat): seq<nat> {
    seq<nat>(n, i => 48)
  }

  /** What `%0wld` prints: at least `w` characters, zeros in front. */
  function Padded(v: int, w: nat): seq<nat> {
    var t := TextOf(if v < 0 then 0 - v else v, 10, false);
    var sign: seq<nat> := if v < 0 then [45] else [];
    sign + ZeroDigits(if |t| + |sign| < w then w - |t| - |sign| else 0) + t
  }

  function Text(a: Date, s: int): seq<nat> {
    Padded(a.y, 4) + (Padded(a.m, 2) + (Padded(a.d, 2) + ([84] +
      (Padded(Div(s, 3600), 2) + (Padded(Rem(Div(s, 60), 60), 2) + (Padded(Rem(s, 60), 2) + [90]))))))
  }

  /** `snprintf` into 20 bytes leaves the first 19 characters. */
  function Cut(t: seq<nat>): seq<nat> {
    if |t| <= 19 then t else t[..19]
  }

  /** The stamp of a second, by the calendar. */
  ghost function StampOf(t: int): seq<nat> {
    Cut(Text(CivilDay(t / 86400), t % 86400))
  }

  /** `_unisa_sd_stamp`. */
  method Stamp(t: int) returns (out: seq<nat>)
    ensures out == StampOf(t)
  {
    var z := Div(t, 86400);
    var s := Rem(t, 86400);
    Floors(t);
    if s < 0 {
      s := s + 86400;
      z := z - 1;
    }
    var y, m, d := DateFields(z);
    hide Div, Rem, CivilDay, Text;
    out := Cut(Text(Date(y, m, d), s));
  }

  lemma Floors(t: int)
    ensures var z, s := Div(t, 86400), Rem(t, 86400);
      if s < 0 then z - 1 == t / 86400 && s + 86400 == t % 86400 else z == t / 86400 && s == t % 86400
  {
  }

  // ---------- reading it ----------

  predicate DigitsAt(nm: seq<nat>, k: nat, w: nat) {
    forall j: nat :: k <= j < k + w ==> 48 <= At(nm, j) <= 57
  }

  function NumAt(nm: seq<nat>, k: nat, w: nat): nat
    requires DigitsAt(nm, k, w)
    decreases w
  {
    if w == 0 then 0 else NumAt(nm, k, w - 1) * 10 + (At(nm, k + w - 1) - 48)
  }

  /** Where field `i` of the text begins, and how wide it is. */
  function Place(i: nat): nat {
    if i == 0 then 0 else if i == 1 then 4 else if i == 2 then 6 else 3 + 2 * i
  }

  function Width(i: nat): nat {
    if i == 0 then 4 else 2
  }

  /** YYYYMMDDTHHMMSSZ at the start of a name. */
  predicate Shaped(nm: seq<nat>) {
    && DigitsAt(nm, 0, 4) && DigitsAt(nm, 4, 2) && DigitsAt(nm, 6, 2) && At(nm, 8) == 84
    && DigitsAt(nm, 9, 2) && DigitsAt(nm, 11, 2) && DigitsAt(nm, 13, 2) && At(nm, 15) == 90
  }

  /** The second the name denotes: its day in the calendar's count, its time of day; -1 when it has no such time. */
  function UnstampOf(nm: seq<nat>): int {
    if !Shaped(nm) then -1
    else
      var m, d := NumAt(nm, 4, 2), NumAt(nm, 6, 2);
      var h, i, s := NumAt(nm, 9, 2), NumAt(nm, 11, 2), NumAt(nm, 13, 2);
      if m < 1 || m > 12 || d < 1 || d > 31 || h > 23 || i > 59 || s > 60 then -1
      else DaysOf(Date(NumAt(nm, 0, 4), m, d)) * 86400 + h * 3600 + i * 60 + s
  }

  predicate FieldsRead(nm: seq<nat>, v: seq<nat>, i: nat)
    requires i <= |v|
  {
    && (forall f: nat :: f < i ==> DigitsAt(nm, Place(f), Width(f)) && v[f] == NumAt(nm, Place(f), Width(f)))
    && (i > 3 ==> At(nm, 8) == 84)
  }

  /** `_unisa_sd_unstamp`. */
  method Unstamp(nm: seq<nat>) returns (r: int)
    ensures r == UnstampOf(nm)
  {
    hide DaysOf, NumAt;
    var v := new nat[6];
    var k: nat := 0;
    for i := 0 to 6
      invariant FieldsRead(nm, v[..], i)
      invariant k == if i == 3 then 8 else if i < 6 then Place(i) else 15
    {
      if i == 3 {
        k := k + 1;
        if At(nm, k - 1) != 84 {
          return -1;
        }
      }
      var bad;
      ghost var before := v[..];
      bad := ReadField(nm, k, Width(i), v, i);
      if bad {
        NotShaped(nm, i);
        return -1;
      }
      k := k + Width(i);
      assert v[..i] == before[..i];
    }
    AllRead(nm, v[..]);
    if At(nm, k) != 90 || v[1] < 1 || v[1] > 12 || v[2] < 1 || v[2] > 31 || v[3] > 23 || v[4] > 59 || v[5] > 60 {
      return -1;
    }
    var y, m := v[0], v[1];
    var days := CountDays(y, m, v[2]);
    r := days * 86400 + v[3] * 3600 + v[4] * 60 + v[5];
  }

  lemma AllRead(nm: seq<nat>, v: seq<nat>)
    requires |v| == 6 && FieldsRead(nm, v, 6)
    ensures DigitsAt(nm, 0, 4) && DigitsAt(nm, 4, 2) && DigitsAt(nm, 6, 2) && At(nm, 8) == 84
    ensures DigitsAt(nm, 9, 2) && DigitsAt(nm, 11, 2) && DigitsAt(nm, 13, 2)
    ensures v[0] == NumAt(nm, 0, 4) && v[1] == NumAt(nm, 4, 2) && v[2] == NumAt(nm, 6, 2)
    ensures v[3] == NumAt(nm, 9, 2) && v[4] == NumAt(nm, 11, 2) && v[5] == NumAt(nm, 13, 2)
  {
    hide NumAt, DigitsAt;
    assert Place(0) == 0 && Place(1) == 4 && Place(2) == 6 && Place(3) == 9 && Place(4) == 11 && Place(5) == 13;
  }

  lemma NotShaped(nm: seq<nat>, i: nat)
    requires i < 6 && !DigitsAt(nm, Place(i), Width(i))
    ensures !Shaped(nm)
  {
  }

  /** The inner loop: one field. */
  method ReadField(nm: seq<nat>, k: nat, w: nat, v: array<nat>, i: nat) returns (bad: bool)
    requires i < v.Length
    modifies v
    ensures bad == !DigitsAt(nm, k, w)
    ensures !bad ==> v[..] == old(v[..])[i := NumAt(nm, k, w)]
  {
    v[i] := 0;
    for j := 0 to w
      invariant DigitsAt(nm, k, j) && v[..] == old(v[..])[i := NumAt(nm, k, j)]
    {
      if At(nm, k + j) < 48 || At(nm, k + j) > 57 {
        return true;
      }
      v[i] := v[i] * 10 + (At(nm, k + j) - 48);
    }
    bad := false;
  }

  /** The day arithmetic of `_unisa_sd_unstamp`. */
  method CountDays(y0: nat, m: nat, d: nat) returns (days: int)
    requires 1 <= m <= 12 && 1 <= d <= 31
    ensures days == DaysOf(Date(y0, m, d))
  {
    var y: int := y0;
    if m <= 2 {
      y := y - 1;
    }
    var era := Div(if y >= 0 then y else y - 399, 400);
    var yoe := y - era * 400;
    assert 0 <= yoe < 400;
    var mp := if m > 2 then m - 3 else m + 9;
    var doy := Div(153 * mp + 2, 5) + d - 1;
    var doe := yoe * 365 + Div(yoe, 4) - Div(yoe, 100) + doy;
    EraYear(era, yoe);
    days := era * 146097 + doe - 719468;
  }

  // ---------- round trips ----------

  /** The last `w` decimal digits of a number. */
  function Pad(v: nat, w: nat): (p: seq<nat>)
    ensures |p| == w
    decreases w
  {
    if w == 0 then [] else Pad(v / 10, w - 1) + [48 + v % 10]
  }

  lemma {:induction false} PadZero(w: nat)
    ensures Pad(0, w) == ZeroDigits(w)
    decreases w
  {
    if w > 0 {
      PadZero(w - 1);
    }
  }

  /** Where the width suffices, the padded text is the fixed-width one. */
  lemma {:induction false} PaddedFits(v: nat, w: nat)
    requires w > 0 && v < Pow(10, w)
    ensures Padded(v, w) == Pad(v, w)
    decreases w
  {
    var t := TextOf(v, 10, false);
    if v < 10 {
      PadZero(w - 1);
      assert Padded(v, w) == ZeroDigits(w - 1) + [48 + v];
    } else {
      PowSucc(10, 0);
      PowZero(10);
      assert w > 1;
      PowSucc(10, w - 1);
      QuotientBelow(v, 10, Pow(10, w - 1));
      PaddedFits(v / 10, w - 1);
      TextLength(v / 10, 10, false, w - 1);
      var u := TextOf(v / 10, 10, false);
      assert t == u + [48 + v % 10];
      assert Padded(v / 10, w - 1) == ZeroDigits(w - 1 - |u|) + u;
      assert Padded(v, w) == ZeroDigits(w - |t|) + t;
      Reassociate(ZeroDigits(w - |t|), u, [48 + v % 10]);
    }
  }

  lemma {:induction false} PadReads(nm: seq<nat>, k: nat, v: nat, w: nat)
    requires k + w <= |nm| && nm[k..k + w] == Pad(v, w)
    ensures DigitsAt(nm, k, w) && (v < Pow(10, w) ==> NumAt(nm, k, w) == v)
    decreases w
  {
    if w > 0 {
      assert nm[k..k + w - 1] == nm[k..k + w][..w - 1] == Pad(v / 10, w - 1);
      assert At(nm, k + w - 1) == nm[k..k + w][w - 1] == 48 + v % 10;
      PadReads(nm, k, v / 10, w - 1);
      if v < Pow(10, w) {
        PowSucc(10, w - 1);
        QuotientBelow(v, 10, Pow(10, w - 1));
      }
    } else {
      PowZero(10);
    }
  }

  lemma {:induction false} PadWrites(nm: seq<nat>, k: nat, w: nat)
    requires k + w <= |nm| && DigitsAt(nm, k, w)
    ensures Pad(NumAt(nm, k, w), w) == nm[k..k + w] && NumAt(nm, k, w) < Pow(10, w)
    decreases w
  {
    if w > 0 {
      PadWrites(nm, k, w - 1);
      PowSucc(10, w - 1);
      assert nm[k..k + w] == nm[k..k + w - 1] + [At(nm, k + w - 1)];
    } else {
      PowZero(10);
    }
  }

  lemma Widths()
    ensures Pow(10, 2) == 100 && Pow(10, 4) == 10000
  {
  }

  /** The six fields in fixed width: what the text is for four-digit years. */
  function Fixed(y: nat, m: nat, d: nat, h: nat, i: nat, s: nat): (t: seq<nat>)
    ensures |t| == 16
  {
    Pad(y, 4) + (Pad(m, 2) + (Pad(d, 2) + ([84] + (Pad(h, 2) + (Pad(i, 2) + (Pad(s, 2) + [90]))))))
  }

  lemma TimeOfDay(s: int)
    requires 0 <= s < 86400
    ensures Div(s, 3600) == s / 3600 && Rem(Div(s, 60), 60) == s / 60 % 60 && Rem(s, 60) == s % 60
    ensures 0 <= s / 3600 < 24 && 0 <= s / 60 % 60 < 60 && 0 <= s % 60 < 60
    ensures s == s / 3600 * 3600 + s / 60 % 60 * 60 + s % 60
  {
  }

  lemma TextIsFixed(a: Date, s: int)
    requires Valid(a) && 0 <= a.y <= 9999 && 0 <= s < 86400
    ensures Cut(Text(a, s)) == Fixed(a.y, a.m, a.d, s / 3600, s / 60 % 60, s % 60)
  {
    TimeOfDay(s);
    Widths();
    hide Padded, Pad, Div, Rem, Pow;
    PaddedFits(a.y, 4);
    PaddedFits(a.m, 2);
    PaddedFits(a.d, 2);
    PaddedFits(s / 3600, 2);
    PaddedFits(s / 60 % 60, 2);
    PaddedFits(s % 60, 2);
  }

  /** The pieces of the fixed-width text stand where they are read. */
  lemma FixedPlaces(y: nat, m: nat, d: nat, h: nat, i: nat, s: nat)
    ensures var t := Fixed(y, m, d, h, i, s);
      && t[0..4] == Pad(y, 4) && t[4..6] == Pad(m, 2) && t[6..8] == Pad(d, 2) && t[8] == 84
      && t[9..11] == Pad(h, 2) && t[11..13] == Pad(i, 2) && t[13..15] == Pad(s, 2) && t[15] == 90
  {
    hide Pad;
    var t7 := Pad(s, 2) + [90];
    var t6 := Pad(i, 2) + t7;
    var t5 := Pad(h, 2) + t6;
    var t4 := [84] + t5;
    var t3 := Pad(d, 2) + t4;
    var t2 := Pad(m, 2) + t3;
    var t := Pad(y, 4) + t2;
    assert t[4..] == t2 && t2[2..] == t3 && t3[2..] == t4 && t4[1..] == t5 && t5[2..] == t6 && t6[2..] == t7;
    assert t[4..6] == t2[..2] && t[6..8] == t3[..2] && t[8] == t4[0];
    assert t[9..11] == t5[..2] && t[11..13] == t6[..2] && t[13..15] == t7[..2] && t[15] == t7[2];
  }

  lemma FixedReads(y: nat, m: nat, d: nat, h: nat, i: nat, s: nat)
    requires y < 10000 && m < 100 && d < 100 && h < 100 && i < 100 && s < 100
    ensures var t := Fixed(y, m, d, h, i, s);
      && Shaped(t) && NumAt(t, 0, 4) == y && NumAt(t, 4, 2) == m && NumAt(t, 6, 2) == d
      && NumAt(t, 9, 2) == h && NumAt(t, 11, 2) == i && NumAt(t, 13, 2) == s
  {
    var t := Fixed(y, m, d, h, i, s);
    FixedPlaces(y, m, d, h, i, s);
    Widths();
    hide Pad, NumAt, DigitsAt, Fixed, Pow;
    PadReads(t, 0, y, 4);
    PadReads(t, 4, m, 2);
    PadReads(t, 6, d, 2);
    PadReads(t, 9, h, 2);
    PadReads(t, 11, i, 2);
    PadReads(t, 13, s, 2);
  }

  /** Reading a stamp gives its second back exactly when the year has at most four digits and no
      sign; any other stamp is refused. */
  lemma StampRoundTrip(t: int)
    ensures UnstampOf(StampOf(t)) == if 0 <= CivilDay(t / 86400).y <= 9999 then t else -1
  {
    hide CivilDay, DaysOf, Shaped, Fixed, NumAt, Text;
    var a, s := CivilDay(t / 86400), t % 86400;
    CivilCounts(t / 86400);
    if 0 <= a.y <= 9999 {
      TextIsFixed(a, s);
      ReadsBack(a, s);
    } else if a.y < 0 {
      NegativeYear(a, s);
    } else {
      LongYear(a, s);
    }
  }

  lemma ReadsBack(a: Date, s: int)
    requires Valid(a) && 0 <= a.y <= 9999 && 0 <= s < 86400
    ensures UnstampOf(Fixed(a.y, a.m, a.d, s / 3600, s / 60 % 60, s % 60)) == DaysOf(a) * 86400 + s
  {
    TimeOfDay(s);
    assert a.m < 100 && a.d <= 31;
    FixedReads(a.y, a.m, a.d, s / 3600, s / 60 % 60, s % 60);
    hide DaysOf, Shaped, Fixed, NumAt;
  }

  /** The first second of the year 10000 gets a stamp that is refused. */
  lemma YearTenThousand()
    ensures UnstampOf(StampOf(253402300800)) == -1
  {
    hide UnstampOf, StampOf, CivilDay;
    TenThousandYear(2932897);
    StampRoundTrip(253402300800);
  }

  lemma TenThousandYear(z: int)
    requires z == 2932897
    ensures CivilDay(z).y == 10000
  {
    hide CivilDay, DaysOf, Valid;
    var a := Date(10000, 1, 1);
    TenThousandDay(a);
    CountIsCivil(a, z);
  }

  lemma TenThousandDay(a: Date)
    requires a == Date(10000, 1, 1)
    ensures DaysOf(a) == 2932897 && Valid(a)
  {
  }

  lemma NegativeYear(a: Date, s: int)
    requires a.y < 0
    ensures !Shaped(Cut(Text(a, s)))
  {
    assert Padded(a.y, 4)[0] == 45;
    assert At(Cut(Text(a, s)), 0) == 45;
  }

  lemma PaddedDigits(v: nat, w: nat)
    ensures Digits.AllDigits(Padded(v, w)) && |Padded(v, w)| >= w
  {
    TextReads(v, 10, false);
    assert forall c: nat :: IsDigit(c, 10) ==> 48 <= c <= 57;
    hide NumVal, TextOf, IsDigit;
    var t := TextOf(v, 10, false);
    assert forall i: nat :: i < |t| ==> IsDigit(t[i], 10);
    assert Digits.AllDigits(t);
  }

  lemma LongYear(a: Date, s: int)
    requires a.y > 9999 && Valid(a)
    ensures !Shaped(Cut(Text(a, s)))
  {
    PaddedDigits(a.y, 4);
    PaddedDigits(a.m, 2);
    PaddedDigits(a.d, 2);
    assert |Padded(a.y, 4)| >= 5 by {
      FiveDigits(a.y);
    }
    hide Padded, Div, Rem, DigitsAt;
    var rest := [84] + (Padded(Div(s, 3600), 2) + (Padded(Rem(Div(s, 60), 60), 2) + (Padded(Rem(s, 60), 2) + [90])));
    NinthIsDigit(Padded(a.y, 4), Padded(a.m, 2), Padded(a.d, 2), rest);
  }

  lemma NinthIsDigit(y: seq<nat>, m: seq<nat>, d: seq<nat>, rest: seq<nat>)
    requires Digits.AllDigits(y) && Digits.AllDigits(m) && Digits.AllDigits(d) && |y| >= 5 && |m| >= 2 && |d| >= 2
    ensures At(Cut(y + (m + (d + rest))), 8) != 84
  {
  }

  lemma FiveDigits(v: nat)
    requires v > 9999
    ensures |TextOf(v, 10, false)| >= 5
  {
    TextGrows(v);
    TextGrows(v / 10);
    TextGrows(v / 10 / 10);
    TextGrows(v / 10 / 10 / 10);
  }

  lemma TextGrows(v: nat)
    requires v >= 10
    ensures |TextOf(v, 10, false)| == |TextOf(v / 10, 10, false)| + 1
  {
  }

  /** A stamp of a date on the calendar and a time on the clock: no 30 February, no second 60. */
  predicate RealTime(nm: seq<nat>) {
    && Shaped(nm) && Valid(Date(NumAt(nm, 0, 4), NumAt(nm, 4, 2), NumAt(nm, 6, 2)))
    && NumAt(nm, 9, 2) < 24 && NumAt(nm, 11, 2) < 60 && NumAt(nm, 13, 2) < 60
  }

  /** The other way: a text read and written again is its first sixteen characters if and only if it
      is the stamp of a real date and time. */
  lemma UnstampRoundTrip(nm: seq<nat>)
    ensures |nm| >= 16 && StampOf(UnstampOf(nm)) == nm[..16] <==> RealTime(nm)
  {
    hide RealTime, StampOf, UnstampOf;
    if RealTime(nm) {
      RealIsWritten(nm);
    } else if |nm| >= 16 && StampOf(UnstampOf(nm)) == nm[..16] {
      WrittenIsReal(nm);
    }
  }

  /** "20230230T000000Z" is read as the first second of 2 March. */
  lemma ThirtiethFebruary()
    ensures var t := Fixed(2023, 2, 30, 0, 0, 0);
      UnstampOf(t) == DaysOf(Date(2023, 3, 2)) * 86400 && StampOf(UnstampOf(t)) != t
  {
    hide StampOf, Fixed, NumAt, DigitsAt, Shaped, DaysOf, Valid;
    var t, a, b := Fixed(2023, 2, 30, 0, 0, 0), Date(2023, 2, 30), Date(2023, 3, 2);
    FixedReads(2023, 2, 30, 0, 0, 0);
    SameDay(a, b);
    assert t[..16] == t;
    UnstampRoundTrip(t);
  }

  lemma SameDay(a: Date, b: Date)
    requires a == Date(2023, 2, 30) && b == Date(2023, 3, 2)
    ensures DaysOf(a) == DaysOf(b) && !Valid(a)
  {
  }

  lemma RealIsWritten(nm: seq<nat>)
    requires RealTime(nm)
    ensures |nm| >= 16 && StampOf(UnstampOf(nm)) == nm[..16]
  {
    hide NumAt, DigitsAt, DaysOf, CivilDay, Text, Fixed;
    var a := Date(NumAt(nm, 0, 4), NumAt(nm, 4, 2), NumAt(nm, 6, 2));
    var h, i, s := NumAt(nm, 9, 2), NumAt(nm, 11, 2), NumAt(nm, 13, 2);
    var sec := h * 3600 + i * 60 + s;
    assert UnstampOf(nm) == DaysOf(a) * 86400 + sec;
    ShapedIsFixed(nm);
    hide Shaped, Valid, UnstampOf;
    Combine(DaysOf(a), sec);
    CountIsCivil(a, DaysOf(a));
    TextIsFixed(a, sec);
    HoursMinutes(h, i, s);
  }

  lemma WrittenIsReal(nm: seq<nat>)
    requires |nm| >= 16 && StampOf(UnstampOf(nm)) == nm[..16]
    ensures RealTime(nm)
  {
    var t := UnstampOf(nm);
    var a, s := CivilDay(t / 86400), t % 86400;
    hide UnstampOf, CivilDay, Shaped, Fixed, NumAt, DigitsAt, Text, Cut, RealTime;
    CivilCounts(t / 86400);
    FirstSixteen(nm);
    if 0 <= a.y <= 9999 {
      TextIsFixed(a, s);
      StampIsReal(a, s, nm);
    } else {
      if a.y < 0 {
        NegativeYear(a, s);
      } else {
        LongYear(a, s);
      }
      UnshapedIsNone(nm);
      LastSecond();
      assert false;
    }
  }

  lemma StampIsReal(a: Date, s: int, nm: seq<nat>)
    requires Valid(a) && 0 <= a.y <= 9999 && 0 <= s < 86400 && |nm| >= 16
    requires Fixed(a.y, a.m, a.d, s / 3600, s / 60 % 60, s % 60) == nm[..16]
    ensures RealTime(nm)
  {
    TimeOfDay(s);
    assert a.m < 100 && a.d <= 31;
    FixedReads(a.y, a.m, a.d, s / 3600, s / 60 % 60, s % 60);
    FirstSixteen(nm);
    hide Shaped, Fixed, NumAt, DigitsAt;
  }

  lemma UnshapedIsNone(nm: seq<nat>)
    requires !Shaped(nm)
    ensures UnstampOf(nm) == -1
  {
  }

  /** The second before 1970. */
  lemma LastSecond()
    ensures CivilDay(-1 / 86400).y == 1969
  {
    assert CivilDay(0) == Date(1970, 1, 1);
    assert CivilDay(-1) == PreviousDay(CivilDay(0));
  }

  /** Only the first sixteen characters are read. */
  lemma FirstSixteen(nm: seq<nat>)
    requires |nm| >= 16
    ensures Shaped(nm) <==> Shaped(nm[..16])
    ensures Shaped(nm) ==> forall k: nat, w: nat :: k + w <= 16 && DigitsAt(nm, k, w) && DigitsAt(nm[..16], k, w) ==>
      NumAt(nm, k, w) == NumAt(nm[..16], k, w)
  {
    assert forall i: nat :: i < 16 ==> At(nm, i) == At(nm[..16], i);
    hide At, NumAt;
    forall k: nat, w: nat | k + w <= 16 && DigitsAt(nm, k, w) && DigitsAt(nm[..16], k, w)
      ensures NumAt(nm, k, w) == NumAt(nm[..16], k, w)
    {
      SameNumber(nm, nm[..16], k, w);
    }
  }

  lemma {:induction false} SameNumber(a: seq<nat>, b: seq<nat>, k: nat, w: nat)
    requires DigitsAt(a, k, w) && DigitsAt(b, k, w) && forall i: nat :: k <= i < k + w ==> At(a, i) == At(b, i)
    ensures NumAt(a, k, w) == NumAt(b, k, w)
    decreases w
  {
    if w > 0 {
      SameNumber(a, b, k, w - 1);
    }
  }

  lemma Combine(z: int, sec: nat)
    requires sec < 86400
    ensures (z * 86400 + sec) / 86400 == z && (z * 86400 + sec) % 86400 == sec
  {
  }

  lemma HoursMinutes(h: nat, i: nat, s: nat)
    requires i < 60 && s < 60
    ensures var sec := h * 3600 + i * 60 + s; sec / 3600 == h && sec / 60 % 60 == i && sec % 60 == s
  {
    var m := 60 * h + i;
    DivModIs(h * 3600 + i * 60 + s, 60, m, s);
    DivModIs(m, 60, h, i);
    DivModIs(h * 3600 + i * 60 + s, 3600, h, i * 60 + s);
  }

  lemma ShapedIsFixed(nm: seq<nat>)
    requires Shaped(nm)
    ensures |nm| >= 16 && NumAt(nm, 0, 4) < 10000
    ensures Fixed(NumAt(nm, 0, 4), NumAt(nm, 4, 2), NumAt(nm, 6, 2), NumAt(nm, 9, 2), NumAt(nm, 11, 2), NumAt(nm, 13, 2)) == nm[..16]
  {
    hide NumAt, Pad, Fixed, DigitsAt, Pow;
    assert |nm| >= 16;
    Widths();
    FieldWrites(nm, 0, 4);
    FieldWrites(nm, 4, 2);
    FieldWrites(nm, 6, 2);
    FieldWrites(nm, 9, 2);
    FieldWrites(nm, 11, 2);
    FieldWrites(nm, 13, 2);
    Pieces(nm, NumAt(nm, 0, 4), NumAt(nm, 4, 2), NumAt(nm, 6, 2), NumAt(nm, 9, 2), NumAt(nm, 11, 2), NumAt(nm, 13, 2));
  }

  lemma FieldWrites(nm: seq<nat>, k: nat, w: nat)
    requires |nm| >= 16 && k + w <= 16 && DigitsAt(nm, k, w)
    ensures nm[k..k + w] == Pad(NumAt(nm, k, w), w) && NumAt(nm, k, w) < Pow(10, w)
  {
    PadWrites(nm, k, w);
  }

  lemma Pieces(nm: seq<nat>, y: nat, m: nat, d: nat, h: nat, i: nat, s: nat)
    requires |nm| >= 16 && nm[0..4] == Pad(y, 4) && nm[4..6] == Pad(m, 2) && nm[6..8] == Pad(d, 2)
    requires nm[8] == 84 && nm[9..11] == Pad(h, 2) && nm[11..13] == Pad(i, 2) && nm[13..15] == Pad(s, 2) && nm[15] == 90
    ensures Fixed(y, m, d, h, i, s) == nm[..16]
  {
    hide Pad, Fixed;
    var t := Fixed(y, m, d, h, i, s);
    FixedPlaces(y, m, d, h, i, s);
    Sixteen(t, nm);
  }

  /** Two texts agreeing on the fields and the letters agree. */
  lemma Sixteen(t: seq<nat>, u: seq<nat>)
    requires |t| == 16 <= |u| && t[8] == u[8] && t[15] == u[15]
    requires t[0..4] == u[0..4] && t[4..6] == u[4..6] && t[6..8] == u[6..8]
    requires t[9..11] == u[9..11] && t[11..13] == u[11..13] && t[13..15] == u[13..15]
    ensures t == u[..16]
  {
  }

  // ---------- order ----------

  /** `a` before `b`, as `strcmp` has it for texts of which neither begins the other. */
  ghost predicate Before(a: seq<nat>, b: seq<nat>) {
    exists k: nat :: k < |a| && k < |b| && a[..k] == b[..k] && a[k] < b[k]
  }

  lemma BeforeExtends(p: seq<nat>, a: seq<nat>, b: seq<nat>, c: seq<nat>, d: seq<nat>)
    requires Before(a, b)
    ensures Before(p + (a + c), p + (b + d))
  {
    var k: nat :| k < |a| && k < |b| && a[..k] == b[..k] && a[k] < b[k];
    var x, y := p + (a + c), p + (b + d);
    assert x[..|p| + k] == p + a[..k] && y[..|p| + k] == p + b[..k];
    assert x[|p| + k] == a[k] && y[|p| + k] == b[k];
  }

  lemma {:induction false} PadBefore(u: nat, v: nat, w: nat)
    requires u < v < Pow(10, w)
    ensures Before(Pad(u, w), Pad(v, w))
    decreases w
  {
    PowZero(10);
    if w > 0 {
      PowSucc(10, w - 1);
      QuotientBelow(v, 10, Pow(10, w - 1));
      if u / 10 < v / 10 {
        PadBefore(u / 10, v / 10, w - 1);
        BeforeExtends([], Pad(u / 10, w - 1), Pad(v / 10, w - 1), [48 + u % 10], [48 + v % 10]);
        assert forall q: seq<nat> :: [] + q == q;
      } else {
        var x, y := Pad(u, w), Pad(v, w);
        assert x[..w - 1] == y[..w - 1] && x[w - 1] < y[w - 1];
      }
    }
  }

  /** One field decides, or the rest does. */
  lemma FieldBefore(u: nat, v: nat, w: nat, a: seq<nat>, b: seq<nat>)
    requires v < Pow(10, w) && (u < v || (u == v && Before(a, b)))
    ensures Before(Pad(u, w) + a, Pad(v, w) + b)
  {
    if u < v {
      PadBefore(u, v, w);
      BeforeExtends([], Pad(u, w), Pad(v, w), a, b);
      assert forall q: seq<nat> :: [] + q == q;
    } else {
      BeforeExtends(Pad(u, w), a, b, [], []);
      assert a + [] == a && b + [] == b;
    }
  }

  /** Over four-digit years, the stamps sort in time order. */
  lemma StampsSort(t1: int, t2: int)
    requires 0 <= CivilDay(t1 / 86400).y <= 9999 && 0 <= CivilDay(t2 / 86400).y <= 9999
    ensures t1 < t2 <==> Before(StampOf(t1), StampOf(t2))
  {
    if t1 < t2 {
      StampsAscend(t1, t2);
    } else {
      if t2 < t1 {
        StampsAscend(t2, t1);
      }
      NotBoth(StampOf(t1), StampOf(t2));
    }
  }

  lemma NotBoth(a: seq<nat>, b: seq<nat>)
    ensures Before(a, b) ==> !Before(b, a) && a != b
  {
  }

  lemma StampsAscend(t1: int, t2: int)
    requires t1 < t2 && 0 <= CivilDay(t1 / 86400).y <= 9999 && 0 <= CivilDay(t2 / 86400).y <= 9999
    ensures Before(StampOf(t1), StampOf(t2))
  {
    var a, b := CivilDay(t1 / 86400), CivilDay(t2 / 86400);
    var s, r := t1 % 86400, t2 % 86400;
    CivilCounts(t1 / 86400);
    CivilCounts(t2 / 86400);
    CountsDecide(a, b);
    TextIsFixed(a, s);
    TextIsFixed(b, r);
    hide CivilDay, Text;
    assert Earlier(a, b) || (a == b && s < r);
    FixedBefore(a, s, b, r);
  }

  lemma FixedBefore(a: Date, s: int, b: Date, r: int)
    requires Valid(a) && Valid(b) && 0 <= a.y && 0 <= b.y <= 9999 && 0 <= s < 86400 && 0 <= r < 86400
    requires Earlier(a, b) || (a == b && s < r)
    ensures Before(Fixed(a.y, a.m, a.d, s / 3600, s / 60 % 60, s % 60), Fixed(b.y, b.m, b.d, r / 3600, r / 60 % 60, r % 60))
  {
    Widths();
    TimeOfDay(s);
    TimeOfDay(r);
    hide Pad, Before, Pow;
    var t7, u7 := Pad(s % 60, 2) + [90], Pad(r % 60, 2) + [90];
    var t6, u6 := Pad(s / 60 % 60, 2) + t7, Pad(r / 60 % 60, 2) + u7;
    var t5, u5 := Pad(s / 3600, 2) + t6, Pad(r / 3600, 2) + u6;
    if a == b {
      if s / 3600 == r / 3600 {
        if s / 60 % 60 == r / 60 % 60 {
          FieldBefore(s % 60, r % 60, 2, [90], [90]);
        }
        FieldBefore(s / 60 % 60, r / 60 % 60, 2, t7, u7);
      }
      FieldBefore(s / 3600, r / 3600, 2, t6, u6);
      BeforeExtends([84], t5, u5, [], []);
      assert t5 + [] == t5 && u5 + [] == u5;
    }
    DateBefore(a, b, [84] + t5, [84] + u5);
  }

  lemma DateBefore(a: Date, b: Date, p: seq<nat>, q: seq<nat>)
    requires Valid(a) && Valid(b) && 0 <= a.y && 0 <= b.y <= 9999
    requires Earlier(a, b) || (a == b && Before(p, q))
    ensures Before(Pad(a.y, 4) + (Pad(a.m, 2) + (Pad(a.d, 2) + p)), Pad(b.y, 4) + (Pad(b.m, 2) + (Pad(b.d, 2) + q)))
  {
    Widths();
    hide Pad, Before, Pow;
    if a.y == b.y {
      if a.m == b.m {
        FieldBefore(a.d, b.d, 2, p, q);
      }
      FieldBefore(a.m, b.m, 2, Pad(a.d, 2) + p, Pad(b.d, 2) + q);
    }
    FieldBefore(a.y, b.y, 4, Pad(a.m, 2) + (Pad(a.d, 2) + p), Pad(b.m, 2) + (Pad(b.d, 2) + q));
  }
}
