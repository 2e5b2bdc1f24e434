/** A simplified `datetime.fromisoformat`: it accepts exactly the text
    `YYYY-MM-DDTHH:MM:SS` followed by a UTC offset `+HH:MM` or `-HH:MM`, with
    every component in range (years 1 to 9999, the Gregorian month lengths,
    24-hour time, an offset of less than a day), and yields an aware
    date-time. Any other text is the `ValueError` path, `None`. */
module IsoDateTime {
  import opened Wrappers

  /** A date-time with a fixed offset from UTC, in minutes. */
  datatype DateTime = DateTime(year: nat, month: nat, day: nat,
                               hour: nat, minute: nat, second: nat,
                               offsetMinutes: int)

  predicate IsLeapYear(y: int) {
    y % 4 == 0 && (y % 100 != 0 || y % 400 == 0)
  }

  function DaysInMonth(y: int, m: int): int {
    if m == 2 then (if IsLeapYear(y) then 29 else 28)
    else if m == 4 || m == 6 || m == 9 || m == 11 then 30
    else 31
  }

  predicate IsValid(dt: DateTime) {
    && 1 <= dt.year <= 9999
    && 1 <= dt.month <= 12
    && 1 <= dt.day <= DaysInMonth(dt.year, dt.month)
    && 0 <= dt.hour < 24 && 0 <= dt.minute < 60 && 0 <= dt.second < 60
    && -1440 < dt.offsetMinutes < 1440
  }

  predicate IsDigit(c: char) { '0' <= c <= '9' }

  predicate AllDigits(s: string) {
    forall i :: 0 <= i < |s| ==> IsDigit(s[i])
  }

  /** The value of a string of decimal digits. */
  function Number(s: string): nat
    requires AllDigits(s)
  {
    if s == [] then 0 else Number(s[..|s| - 1]) * 10 + (s[|s| - 1] as int - '0' as int)
  }

  function Pow10(n: nat): nat {
    if n == 0 then 1 else 10 * Pow10(n - 1)
  }

  /** `n` written in decimal with exactly `w` digits, padded with leading zeros. */
  function Pad(n: nat, w: nat): string {
    if w == 0 then [] else Pad(n / 10, w - 1) + [('0' as int + n % 10) as char]
  }

  /** Digits occupy `t[i..i+n]`. */
  predicate DigitsAt(t: string, i: nat, n: nat) {
    i + n <= |t| && AllDigits(t[i..i + n])
  }

  function NumberAt(t: string, i: nat, n: nat): nat
    requires DigitsAt(t, i, n)
  {
    Number(t[i..i + n])
  }

  /** The layout `YYYY-MM-DDTHH:MM:SS±HH:MM`. */
  predicate HasLayout(t: string) {
    && |t| == 25
    && DigitsAt(t, 0, 4) && t[4] == '-' && DigitsAt(t, 5, 2) && t[7] == '-' && DigitsAt(t, 8, 2)
    && t[10] == 'T'
    && DigitsAt(t, 11, 2) && t[13] == ':' && DigitsAt(t, 14, 2) && t[16] == ':' && DigitsAt(t, 17, 2)
    && (t[19] == '+' || t[19] == '-') && DigitsAt(t, 20, 2) && t[22] == ':' && DigitsAt(t, 23, 2)
  }

  function FromIsoFormat(t: string): (r: Option<DateTime>)
    ensures r.Some? ==> IsValid(r.value)
  {
    if !HasLayout(t) then None
    else
      var offHours, offMinutes := NumberAt(t, 20, 2), NumberAt(t, 23, 2);
      var sign := if t[19] == '+' then 1 else -1;
      var dt := DateTime(NumberAt(t, 0, 4), NumberAt(t, 5, 2), NumberAt(t, 8, 2),
                         NumberAt(t, 11, 2), NumberAt(t, 14, 2), NumberAt(t, 17, 2),
                         sign * (offHours * 60 + offMinutes));
      if IsValid(dt) && offHours < 24 && offMinutes < 60 then Some(dt) else None
  }

  /** `dt` written as `YYYY-MM-DDTHH:MM:SS`, without an offset. */
  function FormatLocal(dt: DateTime): string {
    Pad(dt.year, 4) + "-" + Pad(dt.month, 2) + "-" + Pad(dt.day, 2) + "T"
      + Pad(dt.hour, 2) + ":" + Pad(dt.minute, 2) + ":" + Pad(dt.second, 2)
  }

  const UtcSuffix := "+00:00"

  /** Texts that name a valid UTC date-time in the `YYYY-MM-DDTHH:MM:SS` form. */
  ghost predicate IsLocalTimestamp(f: string) {
    exists dt :: IsValid(dt) && dt.offsetMinutes == 0 && FormatLocal(dt) == f
  }

  lemma {:induction false} PadDigits(n: nat, w: nat)
    ensures |Pad(n, w)| == w && AllDigits(Pad(n, w))
    ensures n < Pow10(w) ==> Number(Pad(n, w)) == n
  {
    if w > 0 {
      PadDigits(n / 10, w - 1);
      var p := Pad(n, w);
      assert p[..|p| - 1] == Pad(n / 10, w - 1);
    }
  }

  lemma {:induction false} NumberDigits(s: string)
    requires AllDigits(s)
    ensures Number(s) < Pow10(|s|) && Pad(Number(s), |s|) == s
    decreases |s|
  {
    if s != [] {
      var init := s[..|s| - 1];
      NumberDigits(init);
      assert s == init + [s[|s| - 1]];
    }
  }

  lemma {:induction false} PadLength(n: nat, w: nat)
    ensures |Pad(n, w)| == w
  {
    if w > 0 {
      PadLength(n / 10, w - 1);
    }
  }

  /** Where the pieces of `a x b y c` stand. */
  lemma Pieces(a: string, x: string, b: string, y: string, c: string)
    requires |x| == 1 && |y| == 1
    ensures var t := a + x + b + y + c;
      var i, j := |a| + 1, |a| + 1 + |b| + 1;
      && |t| == j + |c|
      && t[..|a|] == a && t[|a|] == x[0] && t[i..i + |b|] == b && t[j - 1] == y[0] && t[j..] == c
  {
    var t := a + x + b + y + c;
    var i, j := |a| + 1, |a| + 1 + |b| + 1;
    assert t[i..i + |b|] == b by {
      assert forall k :: 0 <= k < |b| ==> t[i..i + |b|][k] == t[i + k] == b[k];
    }
  }

  lemma FormatLayout(dt: DateTime)
    ensures var t := FormatLocal(dt);
      && |t| == 19
      && t[0..4] == Pad(dt.year, 4) && t[4] == '-' && t[5..7] == Pad(dt.month, 2) && t[7] == '-'
      && t[8..10] == Pad(dt.day, 2) && t[10] == 'T' && t[11..13] == Pad(dt.hour, 2) && t[13] == ':'
      && t[14..16] == Pad(dt.minute, 2) && t[16] == ':' && t[17..19] == Pad(dt.second, 2)
  {
    var y, mo, d := Pad(dt.year, 4), Pad(dt.month, 2), Pad(dt.day, 2);
    var h, mi, s := Pad(dt.hour, 2), Pad(dt.minute, 2), Pad(dt.second, 2);
    PadLength(dt.year, 4);
    PadLength(dt.month, 2);
    PadLength(dt.day, 2);
    PadLength(dt.hour, 2);
    PadLength(dt.minute, 2);
    PadLength(dt.second, 2);
    var date := y + "-" + mo + "-" + d;
    var time := h + ":" + mi + ":" + s;
    Pieces(y, "-", mo, "-", d);
    Pieces(h, ":", mi, ":", s);
    var t := FormatLocal(dt);
    assert t == date + "T" + time;
    assert t[..10] == date && t[11..] == time;
    assert t[0..4] == date[0..4] && t[5..7] == date[5..7] && t[8..10] == date[8..10];
    assert t[11..13] == time[0..2] && t[14..16] == time[3..5] && t[17..19] == time[6..8];
  }

  /** A valid UTC date-time written out and given the `+00:00` suffix parses
      back to itself. */
  lemma ParseFormatted(dt: DateTime)
    requires IsValid(dt) && dt.offsetMinutes == 0
    ensures FromIsoFormat(FormatLocal(dt) + UtcSuffix) == Some(dt)
  {
    var f := FormatLocal(dt);
    var t := f + UtcSuffix;
    FormatLayout(dt);
    UtcSuffixLayout(f);
    assert Pow10(2) == 100 && Pow10(4) == 10000;
    PadDigits(dt.year, 4);
    PadDigits(dt.month, 2);
    PadDigits(dt.day, 2);
    PadDigits(dt.hour, 2);
    PadDigits(dt.minute, 2);
    PadDigits(dt.second, 2);
    assert HasLayout(t);
    assert NumberAt(t, 0, 4) == dt.year && NumberAt(t, 5, 2) == dt.month && NumberAt(t, 8, 2) == dt.day;
    assert NumberAt(t, 11, 2) == dt.hour && NumberAt(t, 14, 2) == dt.minute && NumberAt(t, 17, 2) == dt.second;
  }

  /** Appending the UTC suffix to a 19-character text keeps its slices and
      adds a zero offset. */
  lemma UtcSuffixLayout(f: string)
    requires |f| == 19
    ensures var t := f + UtcSuffix;
      && |t| == 25
      && t[0..4] == f[0..4] && t[4] == f[4] && t[5..7] == f[5..7] && t[7] == f[7]
      && t[8..10] == f[8..10] && t[10] == f[10] && t[11..13] == f[11..13] && t[13] == f[13]
      && t[14..16] == f[14..16] && t[16] == f[16] && t[17..19] == f[17..19]
      && t[19] == '+' && DigitsAt(t, 20, 2) && t[22] == ':' && DigitsAt(t, 23, 2)
      && NumberAt(t, 20, 2) == 0 && NumberAt(t, 23, 2) == 0
  {
    var t := f + UtcSuffix;
    assert t[..19] == f;
    assert t[20..22] == "00" && t[23..25] == "00";
    assert Number("00") == 0;
  }

  /** Whatever parses once the `+00:00` suffix is added is a valid UTC
      date-time whose written form is the text itself. */
  lemma ParsedIsFormatted(f: string)
    requires FromIsoFormat(f + UtcSuffix).Some?
    ensures var dt := FromIsoFormat(f + UtcSuffix).value;
      IsValid(dt) && dt.offsetMinutes == 0 && FormatLocal(dt) == f
  {
    var t := f + UtcSuffix;
    var dt := FromIsoFormat(t).value;
    assert |f| == 19;
    UtcSuffixLayout(f);
    NumberDigits(t[0..4]);
    NumberDigits(t[5..7]);
    NumberDigits(t[8..10]);
    NumberDigits(t[11..13]);
    NumberDigits(t[14..16]);
    NumberDigits(t[17..19]);
    FormatLayout(dt);
    var g := FormatLocal(dt);
    SameLayout(g, f);
  }

  /** Two 19-character texts that agree on the six numeric slices and the
      five separators between them are equal. */
  lemma SameLayout(g: string, f: string)
    requires |g| == 19 && |f| == 19
    requires g[0..4] == f[0..4] && g[5..7] == f[5..7] && g[8..10] == f[8..10]
    requires g[11..13] == f[11..13] && g[14..16] == f[14..16] && g[17..19] == f[17..19]
    requires g[4] == f[4] && g[7] == f[7] && g[10] == f[10] && g[13] == f[13] && g[16] == f[16]
    ensures g == f
  {
    forall i | 0 <= i < 19 ensures g[i] == f[i] {
      if i < 4 { assert g[i] == g[0..4][i] && f[i] == f[0..4][i]; }
      else if 5 <= i < 7 { assert g[i] == g[5..7][i - 5] && f[i] == f[5..7][i - 5]; }
      else if 8 <= i < 10 { assert g[i] == g[8..10][i - 8] && f[i] == f[8..10][i - 8]; }
      else if 11 <= i < 13 { assert g[i] == g[11..13][i - 11] && f[i] == f[11..13][i - 11]; }
      else if 14 <= i < 16 { assert g[i] == g[14..16][i - 14] && f[i] == f[14..16][i - 14]; }
      else if 17 <= i < 19 { assert g[i] == g[17..19][i - 17] && f[i] == f[17..19][i - 17]; }
    }
  }

  /** The timestamp field parses exactly when it is a valid date-time in the
      `YYYY-MM-DDTHH:MM:SS` form, and then it is read as that time in UTC. */
  lemma TimestampParsesIff(f: string)
    ensures FromIsoFormat(f + UtcSuffix).Some? <==> IsLocalTimestamp(f)
    ensures FromIsoFormat(f + UtcSuffix).Some? ==> FromIsoFormat(f + UtcSuffix).value.offsetMinutes == 0
  {
    if FromIsoFormat(f + UtcSuffix).Some? {
      ParsedIsFormatted(f);
    }
    if IsLocalTimestamp(f) {
      var dt :| IsValid(dt) && dt.offsetMinutes == 0 && FormatLocal(dt) == f;
      ParseFormatted(dt);
    }
  }

  lemma PadTwo(n: nat, s: string)
    requires n < 100 && |s| == 2
    requires s[0] == ('0' as int + n / 10) as char && s[1] == ('0' as int + n % 10) as char
    ensures Pad(n, 2) == s
  {
    assert Pad(n, 2) == Pad(n / 10, 1) + [('0' as int + n % 10) as char];
    assert Pad(n / 10, 1) == Pad(n / 100, 0) + [('0' as int + (n / 10) % 10) as char];
  }

  lemma FormatExample()
    ensures FormatLocal(DateTime(2024, 3, 1, 12, 0, 0, 0)) == "2024-03-01T12:00:00"
  {
    assert Pad(2024, 4) == "2024";
    PadTwo(3, "03");
    PadTwo(1, "01");
    PadTwo(12, "12");
    PadTwo(0, "00");
  }

  /** The sensor's timestamp form, read as UTC. */
  lemma TimestampExample(f: string)
    requires f == "2024-03-01T12:00:00"
    ensures FromIsoFormat(f + UtcSuffix) == Some(DateTime(2024, 3, 1, 12, 0, 0, 0))
  {
    FormatExample();
    ParseFormatted(DateTime(2024, 3, 1, 12, 0, 0, 0));
  }
}
