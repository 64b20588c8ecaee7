/** Calendar values as the service handles them once Carbon or the database
    has parsed them, and the three renderings the service relies on:
    'Ymd' (in the invoice number), 'd-m-Y' (in the export) and
    'Y-m-d H:i:s' (the database's text form of `order_date`, used by the
    listing's date criteria). */
module Dates {
  import opened Text
  import opened Wrappers

  type Year = y: int | 0 <= y <= 9999
  type Month = m: int | 1 <= m <= 12 witness 1
  type Day = d: int | 1 <= d <= 31 witness 1
  type Hour = h: int | 0 <= h <= 23
  type Minute = m: int | 0 <= m <= 59

  datatype Date = Date(year: Year, month: Month, day: Day)

  datatype DateTime = DateTime(date: Date, hour: Hour, minute: Minute, second: Minute)

  /** `format('Ymd')`. */
  function FormatYmd(d: Date): (r: string)
    ensures |r| == 8 && AllDigits(r)
  {
    Pow10Widths();
    var a, b, c := ZeroPad(d.year, 4), ZeroPad(d.month, 2), ZeroPad(d.day, 2);
    AllDigitsAppend(a, b);
    AllDigitsAppend(a + b, c);
    a + b + c
  }

  /** `format('d-m-Y')`. */
  function FormatDmy(d: Date): (r: string)
    ensures |r| == 10
  {
    Pow10Widths();
    ZeroPad(d.day, 2) + "-" + ZeroPad(d.month, 2) + "-" + ZeroPad(d.year, 4)
  }

  /** `format('Y-m-d')`. */
  function FormatYmdDashed(d: Date): (r: string)
    ensures |r| == 10
  {
    Pow10Widths();
    ZeroPad(d.year, 4) + "-" + ZeroPad(d.month, 2) + "-" + ZeroPad(d.day, 2)
  }

  /** `format('H:i:s')`. */
  function FormatHis(t: DateTime): (r: string)
    ensures |r| == 8
  {
    Pow10Widths();
    ZeroPad(t.hour, 2) + ":" + ZeroPad(t.minute, 2) + ":" + ZeroPad(t.second, 2)
  }

  /** The characters a 'Y-m-d H:i:s' rendering is made of. */
  predicate TimestampChars(s: string)
  {
    forall i :: 0 <= i < |s| ==> IsDigit(s[i]) || s[i] == '-' || s[i] == ' ' || s[i] == ':'
  }

  /** `format('Y-m-d H:i:s')`. */
  function FormatYmdHis(t: DateTime): (r: string)
    ensures |r| == 19 && TimestampChars(r)
  {
    FormatYmdDashed(t.date) + " " + FormatHis(t)
  }

  /** The number held in `s[i..i+w]`, when those characters are digits. */
  function DigitsAt(s: string, i: nat, w: nat): Option<nat>
  {
    if i + w <= |s| && AllDigits(s[i..i + w]) then Some(Value(s[i..i + w])) else None
  }

  /** Reads a 'd-m-Y' rendering back. */
  function ParseDmy(s: string): Option<Date>
  {
    if |s| == 10 && s[2] == '-' && s[5] == '-' then
      match (DigitsAt(s, 0, 2), DigitsAt(s, 3, 2), DigitsAt(s, 6, 4))
      case (Some(d), Some(m), Some(y)) =>
        if 1 <= d <= 31 && 1 <= m <= 12 && y <= 9999 then Some(Date(y, m, d)) else None
      case _ => None
    else None
  }

  /** Reads a 'Y-m-d' rendering back. */
  function ParseYmdDashed(s: string): Option<Date>
  {
    if |s| == 10 && s[4] == '-' && s[7] == '-' then
      match (DigitsAt(s, 0, 4), DigitsAt(s, 5, 2), DigitsAt(s, 8, 2))
      case (Some(y), Some(m), Some(d)) =>
        if y <= 9999 && 1 <= m <= 12 && 1 <= d <= 31 then Some(Date(y, m, d)) else None
      case _ => None
    else None
  }

  /** Reads an 'H:i:s' rendering back, as hour, minute and second. */
  function ParseHis(s: string): Option<(Hour, Minute, Minute)>
  {
    if |s| == 8 && s[2] == ':' && s[5] == ':' then
      match (DigitsAt(s, 0, 2), DigitsAt(s, 3, 2), DigitsAt(s, 6, 2))
      case (Some(h), Some(m), Some(sec)) =>
        if h <= 23 && m <= 59 && sec <= 59 then Some((h, m, sec)) else None
      case _ => None
    else None
  }

  /** Reads a 'Y-m-d H:i:s' rendering back. */
  function ParseYmdHis(s: string): Option<DateTime>
  {
    if |s| == 19 && s[10] == ' ' then
      match (ParseYmdDashed(s[..10]), ParseHis(s[11..]))
      case (Some(d), Some((h, m, sec))) => Some(DateTime(d, h, m, sec))
      case _ => None
    else None
  }

  /** Where the three fields of a rendering with one-character separators sit. */
  lemma Split3(a: string, x: string, b: string, y: string, c: string)
    requires |x| == 1 && |y| == 1
    ensures var s := a + x + b + y + c;
      var i, j := |a| + 1, |a| + |b| + 2;
      |s| == j + |c| && s[..|a|] == a && s[|a|] == x[0] && s[i..i + |b|] == b
      && s[j - 1] == y[0] && s[j..j + |c|] == c
  {
    var s := a + x + b + y + c;
    var i, j := |a| + 1, |a| + |b| + 2;
    assert s == a + (x + (b + (y + c)));
    assert s[i..i + |b|] == (b + (y + c))[..|b|];
    assert s[j..j + |c|] == c;
  }

  lemma DigitsAtField(s: string, i: nat, w: nat, f: string)
    requires i + w <= |s| && s[i..i + w] == f && AllDigits(f)
    ensures DigitsAt(s, i, w) == Some(Value(f))
  {
  }

  /** A 'd-m-Y' shaped string of in-range digit fields reads back as its fields. */
  lemma ParseDmyFields(a: string, b: string, c: string)
    requires |a| == 2 && |b| == 2 && |c| == 4 && AllDigits(a) && AllDigits(b) && AllDigits(c)
    requires 1 <= Value(a) <= 31 && 1 <= Value(b) <= 12 && Value(c) <= 9999
    ensures ParseDmy(a + "-" + b + "-" + c) == Some(Date(Value(c), Value(b), Value(a)))
  {
    var s := a + "-" + b + "-" + c;
    Split3(a, "-", b, "-", c);
    DigitsAtField(s, 0, 2, a);
    DigitsAtField(s, 3, 2, b);
    DigitsAtField(s, 6, 4, c);
  }

  lemma ParseYmdDashedFields(a: string, b: string, c: string)
    requires |a| == 4 && |b| == 2 && |c| == 2 && AllDigits(a) && AllDigits(b) && AllDigits(c)
    requires Value(a) <= 9999 && 1 <= Value(b) <= 12 && 1 <= Value(c) <= 31
    ensures ParseYmdDashed(a + "-" + b + "-" + c) == Some(Date(Value(a), Value(b), Value(c)))
  {
    var s := a + "-" + b + "-" + c;
    Split3(a, "-", b, "-", c);
    DigitsAtField(s, 0, 4, a);
    DigitsAtField(s, 5, 2, b);
    DigitsAtField(s, 8, 2, c);
  }

  lemma ParseHisFields(a: string, b: string, c: string)
    requires |a| == 2 && |b| == 2 && |c| == 2 && AllDigits(a) && AllDigits(b) && AllDigits(c)
    requires Value(a) <= 23 && Value(b) <= 59 && Value(c) <= 59
    ensures ParseHis(a + ":" + b + ":" + c) == Some((Value(a), Value(b), Value(c)))
  {
    var s := a + ":" + b + ":" + c;
    Split3(a, ":", b, ":", c);
    DigitsAtField(s, 0, 2, a);
    DigitsAtField(s, 3, 2, b);
    DigitsAtField(s, 6, 2, c);
  }

  /** The export's date column loses nothing: 'd-m-Y' reads back as the date. */
  lemma ParseFormatDmy(d: Date)
    ensures ParseDmy(FormatDmy(d)) == Some(d)
  {
    Pow10Widths();
    ParseDmyFields(ZeroPad(d.day, 2), ZeroPad(d.month, 2), ZeroPad(d.year, 4));
  }

  lemma ParseFormatYmdDashed(d: Date)
    ensures ParseYmdDashed(FormatYmdDashed(d)) == Some(d)
  {
    Pow10Widths();
    ParseYmdDashedFields(ZeroPad(d.year, 4), ZeroPad(d.month, 2), ZeroPad(d.day, 2));
  }

  lemma ParseFormatHis(t: DateTime)
    ensures ParseHis(FormatHis(t)) == Some((t.hour, t.minute, t.second))
  {
    Pow10Widths();
    ParseHisFields(ZeroPad(t.hour, 2), ZeroPad(t.minute, 2), ZeroPad(t.second, 2));
  }

  lemma ParseFormatYmdHis(t: DateTime)
    ensures ParseYmdHis(FormatYmdHis(t)) == Some(t)
  {
    var s := FormatYmdHis(t);
    assert s[..10] == FormatYmdDashed(t.date) && s[11..] == FormatHis(t);
    ParseFormatYmdDashed(t.date);
    ParseFormatHis(t);
  }

  /** Distinct instants have distinct database renderings. */
  lemma FormatYmdHisInjective(t: DateTime, u: DateTime)
    requires FormatYmdHis(t) == FormatYmdHis(u)
    ensures t == u
  {
    ParseFormatYmdHis(t);
    ParseFormatYmdHis(u);
  }

  /** Lexicographic order on field lists. */
  predicate SeqLe(a: seq<int>, b: seq<int>)
  {
    a == [] || (b != [] && (a[0] < b[0] || (a[0] == b[0] && SeqLe(a[1..], b[1..]))))
  }

  /** The fields of an instant, most significant first. */
  function Fields(t: DateTime): (r: seq<int>)
    ensures |r| == 6
  {
    [t.date.year, t.date.month, t.date.day, t.hour, t.minute, t.second]
  }

  /** Chronological order on instants. */
  predicate NotAfter(t: DateTime, u: DateTime)
  {
    SeqLe(Fields(t), Fields(u))
  }

  /** A zero-padded field followed by a separator decides the comparison
      unless it is equal; then what follows the separator does. */
  lemma FieldFirst(m: nat, n: nat, w: nat, sep: string, x: string, y: string)
    requires 1 <= w && m < Pow10(w) && n < Pow10(w)
    ensures LexLe(ZeroPad(m, w) + (sep + x), ZeroPad(n, w) + (sep + y)) <==> m < n || (m == n && LexLe(x, y))
  {
    LexLeAppend(ZeroPad(m, w), sep + x, ZeroPad(n, w), sep + y);
    LexLeDigits(ZeroPad(m, w), ZeroPad(n, w));
    LexLeCommonPrefix(sep, x, y);
  }

  lemma Reassoc5(a: string, b: string, c: string, d: string, e: string)
    ensures a + b + c + d + e == a + (b + (c + (d + e)))
  {
  }

  lemma SeqLeCons(a: seq<int>, b: seq<int>)
    requires a != [] && b != []
    ensures SeqLe(a, b) <==> a[0] < b[0] || (a[0] == b[0] && SeqLe(a[1..], b[1..]))
  {
  }

  /** 'H:i:s' renderings compare as hour, minute, second do. */
  lemma HisOrder(t: DateTime, u: DateTime)
    ensures LexLe(FormatHis(t), FormatHis(u)) <==>
      t.hour < u.hour || (t.hour == u.hour && (t.minute < u.minute || (t.minute == u.minute && t.second <= u.second)))
  {
    var a2, b2 := ZeroPad(t.second, 2), ZeroPad(u.second, 2);
    var a1, b1 := ZeroPad(t.minute, 2) + (":" + a2), ZeroPad(u.minute, 2) + (":" + b2);
    Reassoc5(ZeroPad(t.hour, 2), ":", ZeroPad(t.minute, 2), ":", a2);
    Reassoc5(ZeroPad(u.hour, 2), ":", ZeroPad(u.minute, 2), ":", b2);
    FieldFirst(t.hour, u.hour, 2, ":", a1, b1);
    FieldFirst(t.minute, u.minute, 2, ":", a2, b2);
    LexLeDigits(a2, b2);
  }

  lemma Assoc(a: string, b: string, c: string)
    ensures (a + b) + c == a + (b + c)
  {
  }

  /** 'Y-m-d' renderings followed by anything compare by year, month, day,
      then by what follows. */
  lemma DashedCompare(d: Date, e: Date, x: string, y: string)
    ensures LexLe(FormatYmdDashed(d) + x, FormatYmdDashed(e) + y) <==>
      d.year < e.year || (d.year == e.year && (
      d.month < e.month || (d.month == e.month && (
      d.day < e.day || (d.day == e.day && LexLe(x, y))))))
  {
    var yd, md, dd := ZeroPad(d.year, 4), ZeroPad(d.month, 2), ZeroPad(d.day, 2);
    var ye, me, de := ZeroPad(e.year, 4), ZeroPad(e.month, 2), ZeroPad(e.day, 2);
    Assoc(yd + "-" + md + "-", dd, x);
    Assoc(yd + "-" + md, "-", dd + x);
    Assoc(yd + "-", md, "-" + (dd + x));
    Assoc(yd, "-", md + ("-" + (dd + x)));
    Assoc(ye + "-" + me + "-", de, y);
    Assoc(ye + "-" + me, "-", de + y);
    Assoc(ye + "-", me, "-" + (de + y));
    Assoc(ye, "-", me + ("-" + (de + y)));
    FieldFirst(d.year, e.year, 4, "-", md + ("-" + (dd + x)), me + ("-" + (de + y)));
    FieldFirst(d.month, e.month, 2, "-", dd + x, de + y);
    LexLeAppend(dd, x, de, y);
    LexLeDigits(dd, de);
  }

  /** 'Y-m-d H:i:s' renderings compare by year, month, day, then clock time. */
  lemma YmdHisCompare(t: DateTime, u: DateTime)
    ensures LexLe(FormatYmdHis(t), FormatYmdHis(u)) <==>
      t.date.year < u.date.year || (t.date.year == u.date.year && (
      t.date.month < u.date.month || (t.date.month == u.date.month && (
      t.date.day < u.date.day || (t.date.day == u.date.day && LexLe(FormatHis(t), FormatHis(u)))))))
  {
    Assoc(FormatYmdDashed(t.date), " ", FormatHis(t));
    Assoc(FormatYmdDashed(u.date), " ", FormatHis(u));
    DashedCompare(t.date, u.date, " " + FormatHis(t), " " + FormatHis(u));
    LexLeCommonPrefix(" ", FormatHis(t), FormatHis(u));
  }

  /** `NotAfter` spelled out field by field. */
  lemma NotAfterFields(t: DateTime, u: DateTime)
    ensures NotAfter(t, u) <==>
      t.date.year < u.date.year || (t.date.year == u.date.year && (
      t.date.month < u.date.month || (t.date.month == u.date.month && (
      t.date.day < u.date.day || (t.date.day == u.date.day && (
      t.hour < u.hour || (t.hour == u.hour && (
      t.minute < u.minute || (t.minute == u.minute && t.second <= u.second)))))))))
  {
    var f, g := Fields(t), Fields(u);
    SeqLeCons(f, g);
    SeqLeCons(f[1..], g[1..]);
    SeqLeCons(f[2..], g[2..]);
    SeqLeCons(f[3..], g[3..]);
    SeqLeCons(f[4..], g[4..]);
    SeqLeCons(f[5..], g[5..]);
    assert f[1..][1..] == f[2..] && g[1..][1..] == g[2..];
    assert f[2..][1..] == f[3..] && g[2..][1..] == g[3..];
    assert f[3..][1..] == f[4..] && g[3..][1..] == g[4..];
    assert f[4..][1..] == f[5..] && g[4..][1..] == g[5..];
    assert f[5..][1..] == [] && g[5..][1..] == [];
  }

  /** 'Y-m-d H:i:s' renderings compare, byte by byte, as the instants do in
      time: the string comparison a `BETWEEN` on them makes is chronological. */
  lemma FormatYmdHisOrder(t: DateTime, u: DateTime)
    ensures LexLe(FormatYmdHis(t), FormatYmdHis(u)) <==> NotAfter(t, u)
  {
    YmdHisCompare(t, u);
    HisOrder(t, u);
    NotAfterFields(t, u);
  }
}
