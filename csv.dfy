/** Splitting one line of text into fields the way `csv.reader` does with its
    default dialect: `,` separates fields, `"` opens a quoted field in which
    `,` is literal and `""` stands for one `"`, and a `"` inside an unquoted
    field is an ordinary character. The states are those of the reader's
    character-at-a-time parser. */
module Csv {

  datatype Mode =
    | StartField      // at the start of a field
    | InField         // inside an unquoted field
    | InQuoted        // inside a quoted field
    | QuoteInQuoted   // just read a `"` inside a quoted field

  /** Parser state: the mode, the field being read and the fields finished so far. */
  datatype Scan = Scan(mode: Mode, field: string, fields: seq<string>)

  const Start := Scan(StartField, [], [])

  function Step(sc: Scan, c: char): Scan {
    match sc.mode
    case StartField =>
      if c == '"' then Scan(InQuoted, sc.field, sc.fields)
      else if c == ',' then Scan(StartField, [], sc.fields + [sc.field])
      else Scan(InField, sc.field + [c], sc.fields)
    case InField =>
      if c == ',' then Scan(StartField, [], sc.fields + [sc.field])
      else Scan(InField, sc.field + [c], sc.fields)
    case InQuoted =>
      if c == '"' then Scan(QuoteInQuoted, sc.field, sc.fields)
      else Scan(InQuoted, sc.field + [c], sc.fields)
    case QuoteInQuoted =>
      // `""` is a literal quote; after a closing quote, anything but a
      // separator is taken as an ordinary character (the dialect is not strict)
      if c == '"' then Scan(InQuoted, sc.field + [c], sc.fields)
      else if c == ',' then Scan(StartField, [], sc.fields + [sc.field])
      else Scan(InField, sc.field + [c], sc.fields)
  }

  function Run(sc: Scan, s: string): Scan
    decreases |s|
  {
    if s == [] then sc else Run(Step(sc, s[0]), s[1..])
  }

  /** The row the reader yields for line `s`: no fields for an empty line;
      otherwise the field under way at the end of the line is saved too,
      including a quoted field whose closing quote never came. */
  function Fields(s: string): seq<string> {
    if s == [] then []
    else
      var e := Run(Start, s);
      e.fields + [e.field]
  }

  /** Reference splitter for text without quotes: the pieces between
      separators `d`, like Python's `str.split(d)`. */
  function SplitOn(s: string, d: char): (r: seq<string>)
    ensures |r| == Count(s, d) + 1
  {
    if s == [] then [[]]
    else
      var rest := SplitOn(s[1..], d);
      if s[0] == d then [[]] + rest else [[s[0]] + rest[0]] + rest[1..]
  }

  function Count(s: string, c: char): nat {
    if s == [] then 0 else (if s[0] == c then 1 else 0) + Count(s[1..], c)
  }

  lemma {:induction false} CountAppend(a: string, b: string, c: char)
    ensures Count(a + b, c) == Count(a, c) + Count(b, c)
  {
    if a == [] {
      assert a + b == b;
    } else {
      assert (a + b)[1..] == a[1..] + b;
      CountAppend(a[1..], b, c);
    }
  }

  function Join(fs: seq<string>, d: char): string {
    if fs == [] then [] else if |fs| == 1 then fs[0] else fs[0] + [d] + Join(fs[1..], d)
  }

  /** A field written with quoting, each `"` doubled, as the csv writer does
      for a field that needs it. */
  function Quote(f: string): string {
    ['"'] + Escape(f) + ['"']
  }

  function Escape(f: string): string {
    if f == [] then [] else (if f[0] == '"' then ['"', '"'] else [f[0]]) + Escape(f[1..])
  }

  lemma {:induction false} RunAppend(sc: Scan, a: string, b: string)
    ensures Run(sc, a + b) == Run(Run(sc, a), b)
    decreases |a|
  {
    if a != [] {
      assert (a + b)[1..] == a[1..] + b;
      RunAppend(Step(sc, a[0]), a[1..], b);
    } else {
      assert a + b == b;
    }
  }

  /** In quote-free text the parser only ever starts or continues unquoted
      fields, and what it produces is the reference split glued onto the
      fields it already had. */
  lemma {:induction false} RunUnquoted(m: Mode, f: string, fs: seq<string>, s: string)
    requires m == StartField || m == InField
    requires m == StartField ==> f == []
    requires '"' !in s
    ensures var r := Run(Scan(m, f, fs), s);
      var p := SplitOn(s, ',');
      r.fields + [r.field] == fs + [f + p[0]] + p[1..]
    decreases |s|
  {
    if s != [] {
      var p := SplitOn(s[1..], ',');
      if s[0] == ',' {
        RunUnquoted(StartField, [], fs + [f], s[1..]);
        assert [] + p[0] == p[0];
        assert [p[0]] + p[1..] == p;
        assert ([[]] + p)[1..] == p;
        assert f + [] == f;
      } else {
        RunUnquoted(InField, f + [s[0]], fs, s[1..]);
        assert f + [s[0]] + p[0] == f + ([s[0]] + p[0]);
        assert ([[s[0]] + p[0]] + p[1..])[1..] == p[1..];
      }
    } else {
      assert f + [] == f;
      assert SplitOn(s, ',') == [[]];
    }
  }

  /** For a non-empty line without quotes, the fields are the pieces between
      commas, so there is one more field than there are commas. */
  lemma UnquotedFields(s: string)
    requires s != [] && '"' !in s
    ensures Fields(s) == SplitOn(s, ',')
    ensures |Fields(s)| == Count(s, ',') + 1
  {
    var e := Run(Start, s);
    var p := SplitOn(s, ',');
    RunUnquoted(StartField, [], [], s);
    assert e.fields + [e.field] == [] + [[] + p[0]] + p[1..];
    assert [] + p[0] == p[0];
    assert [p[0]] + p[1..] == p;
  }

  lemma {:induction false} RunEscaped(f: string, g: string, fs: seq<string>, rest: string)
    ensures Run(Scan(InQuoted, g, fs), Escape(f) + rest) == Run(Scan(InQuoted, g + f, fs), rest)
    decreases |f|
  {
    if f == [] {
      assert Escape(f) + rest == rest;
      assert g + f == g;
    } else {
      var head := if f[0] == '"' then ['"', '"'] else [f[0]];
      assert Escape(f) + rest == head + (Escape(f[1..]) + rest);
      RunAppend(Scan(InQuoted, g, fs), head, Escape(f[1..]) + rest);
      if f[0] == '"' {
        var mid := Step(Scan(InQuoted, g, fs), '"');
        assert mid == Scan(QuoteInQuoted, g, fs);
        assert Run(Scan(InQuoted, g, fs), head) == Run(mid, ['"']);
        assert Run(mid, ['"']) == Run(Step(mid, '"'), []);
      } else {
        assert Run(Scan(InQuoted, g, fs), head) == Run(Step(Scan(InQuoted, g, fs), f[0]), []);
      }
      assert Run(Scan(InQuoted, g, fs), head) == Scan(InQuoted, g + [f[0]], fs);
      RunEscaped(f[1..], g + [f[0]], fs, rest);
      assert g + [f[0]] + f[1..] == g + f;
    }
  }

  /** Reading a quoted field leaves the parser just after its closing quote,
      with the field's exact text. */
  lemma QuotedFieldRun(f: string, fs: seq<string>, rest: string)
    ensures Run(Scan(StartField, [], fs), Quote(f) + rest) == Run(Scan(QuoteInQuoted, f, fs), rest)
  {
    assert Quote(f) + rest == ['"'] + (Escape(f) + (['"'] + rest));
    RunEscaped(f, [], fs, ['"'] + rest);
    assert [] + f == f;
  }

  lemma {:induction false} QuotedRowRun(fs: seq<string>, acc: seq<string>)
    requires fs != []
    ensures var r := Run(Scan(StartField, [], acc), Join(QuoteAll(fs), ','));
      r.mode == QuoteInQuoted && r.fields + [r.field] == acc + fs
    decreases |fs|
  {
    if |fs| == 1 {
      QuotedFieldRun(fs[0], acc, []);
      assert Quote(fs[0]) + [] == Quote(fs[0]);
      assert QuoteAll(fs) == [Quote(fs[0])];
    } else {
      var q := QuoteAll(fs);
      assert q[0] == Quote(fs[0]) && q[1..] == QuoteAll(fs[1..]);
      var tail := Join(q[1..], ',');
      assert Join(q, ',') == Quote(fs[0]) + ([','] + tail);
      QuotedFieldRun(fs[0], acc, [','] + tail);
      QuotedRowRun(fs[1..], acc + [fs[0]]);
      assert acc + [fs[0]] + fs[1..] == acc + fs;
    }
  }

  function QuoteAll(fs: seq<string>): (r: seq<string>)
    ensures |r| == |fs|
  {
    if fs == [] then [] else [Quote(fs[0])] + QuoteAll(fs[1..])
  }

  /** Every row, whatever its fields contain (commas, quotes, nothing at
      all), is read back exactly from its fully quoted form; the row with no
      fields is the empty line. */
  lemma QuotedRowRoundTrip(fs: seq<string>)
    ensures Fields(Join(QuoteAll(fs), ',')) == fs
  {
    if fs == [] {
      return;
    }
    QuotedRowRun(fs, []);
    assert Quote(fs[0]) != [];
    assert Join(QuoteAll(fs), ',') != [] by {
      if |fs| > 1 {
        assert Join(QuoteAll(fs), ',')[0] == Quote(fs[0])[0];
      }
    }
  }

  lemma {:induction false} SplitOnPiece(a: string, d: char, b: string)
    requires d !in a
    ensures SplitOn(a + [d] + b, d) == [a] + SplitOn(b, d)
    decreases |a|
  {
    if a == [] {
      assert a + [d] + b == [d] + b;
      assert ([d] + b)[1..] == b;
    } else {
      var t := a + [d] + b;
      assert t[0] == a[0] && t[1..] == a[1..] + [d] + b;
      SplitOnPiece(a[1..], d, b);
      assert [a[0]] + a[1..] == a;
    }
  }

  lemma {:induction false} SplitOnNone(a: string, d: char)
    requires d !in a
    ensures SplitOn(a, d) == [a]
    decreases |a|
  {
    if a != [] {
      SplitOnNone(a[1..], d);
      assert [a[0]] + a[1..] == a;
    }
  }

  /** Splitting undoes joining, for pieces free of the separator. */
  lemma {:induction false} SplitOnJoin(fs: seq<string>, d: char)
    requires fs != []
    requires forall i :: 0 <= i < |fs| ==> d !in fs[i]
    ensures SplitOn(Join(fs, d), d) == fs
    decreases |fs|
  {
    if |fs| == 1 {
      SplitOnNone(fs[0], d);
    } else {
      SplitOnPiece(fs[0], d, Join(fs[1..], d));
      SplitOnJoin(fs[1..], d);
      assert [fs[0]] + fs[1..] == fs;
    }
  }

  /** Joining adds only separators. */
  lemma {:induction false} JoinAvoids(fs: seq<string>, d: char, c: char)
    requires c != d
    requires forall i :: 0 <= i < |fs| ==> c !in fs[i]
    ensures c !in Join(fs, d)
    decreases |fs|
  {
    if |fs| > 1 {
      JoinAvoids(fs[1..], d, c);
    }
  }
}
