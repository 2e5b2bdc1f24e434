/** One reading of the GPS sensor: a raw line of bytes from the serial port,
    decoded as UTF-8, stripped of every newline, split into CSV fields, and
    assigned by position to the satellite count, latitude, longitude,
    altitude, speed, course and timestamp. */
module App {
  import opened Wrappers
  import Utf8
  import Csv
  import IsoDateTime

  /** `sats` starts as the integer 0 and becomes the text of field 0. */
  datatype SatCount = DefaultZero | Reported(text: string)

  /** The seven attributes of a reading. All but `sats` start as `None`; the
      text attributes keep the field's text as it was, never a number. */
  datatype Record = Record(
    sats: SatCount,
    lat: Option<string>,
    lon: Option<string>,
    alt: Option<string>,
    speed: Option<string>,
    course: Option<string>,
    datetime: Option<IsoDateTime.DateTime>)

  const Defaults := Record(DefaultZero, None, None, None, None, None, None)

  /** What escapes the constructor when the line is not valid UTF-8. */
  datatype DecodeError = UnicodeDecodeError

  /** The text with every `'\n'` deleted, wherever it stands. */
  function RemoveNewlines(s: string): (r: string)
    ensures '\n' !in r
    ensures '\n' !in s ==> r == s
    ensures |r| + Csv.Count(s, '\n') == |s|
  {
    if s == [] then []
    else (if s[0] == '\n' then [] else [s[0]]) + RemoveNewlines(s[1..])
  }

  /** The CSV row of a decoded line. */
  function LineFields(text: string): seq<string> {
    Csv.Fields(RemoveNewlines(text))
  }

  /** The positional table: field i goes to the i-th attribute when the row
      has it; otherwise that attribute keeps the value it had. The timestamp is
      field 6 with the UTC suffix, parsed; when that fails it is `None`. */
  function Populate(r: Record, fs: seq<string>): Record {
    Record(
      if |fs| > 0 then Reported(fs[0]) else r.sats,
      if |fs| > 1 then Some(fs[1]) else r.lat,
      if |fs| > 2 then Some(fs[2]) else r.lon,
      if |fs| > 3 then Some(fs[3]) else r.alt,
      if |fs| > 4 then Some(fs[4]) else r.speed,
      if |fs| > 5 then Some(fs[5]) else r.course,
      if |fs| > 6 then IsoDateTime.FromIsoFormat(fs[6] + IsoDateTime.UtcSuffix) else r.datetime)
  }

  /** The record a reading ends up with once its line has decoded to `text`. */
  function ParseText(text: string): Record {
    Populate(Defaults, LineFields(text))
  }

  /** The record a freshly constructed reading holds, or None when
      construction raises because the line is not valid UTF-8. */
  function ParseLine(data: seq<Utf8.byte>): Option<Record> {
    match Utf8.Decode(data)
    case None => None
    case Some(text) => Some(ParseText(text))
  }

  class Reading {
    const data: seq<Utf8.byte>
    var sats: SatCount
    var lat: Option<string>
    var lon: Option<string>
    var alt: Option<string>
    var speed: Option<string>
    var course: Option<string>
    var datetime: Option<IsoDateTime.DateTime>

    function Snapshot(): Record
      reads this
    {
      Record(sats, lat, lon, alt, speed, course, datetime)
    }

    /** Keeps the raw line and sets every attribute to its default. */
    constructor (data: seq<Utf8.byte>)
      ensures this.data == data
      ensures Snapshot() == Defaults
    {
      this.data := data;
      sats := DefaultZero;
      lat := None;
      lon := None;
      alt := None;
      speed := None;
      course := None;
      datetime := None;
    }

    /** Decodes the line and assigns its fields one attribute at a time. The
        decoding error is not caught, so the attributes stay as they were.
        Reading past the end of the row stops the assignments there:
        attributes before that point are set, the rest keep their values. */
    method ParseData() returns (outcome: Outcome<DecodeError>)
      modifies this
      ensures outcome.Pass? <==> Utf8.Decode(data).Some?
      ensures outcome.Pass? ==>
        Snapshot() == Populate(old(Snapshot()), LineFields(Utf8.Decode(data).value))
      ensures outcome.Fail? ==> Snapshot() == old(Snapshot())
    {
      var text := Utf8.Decode(data);
      if text.None? {
        return Fail(UnicodeDecodeError);
      }
      outcome := Pass;
      var reading := Csv.Fields(RemoveNewlines(text.value));
      if |reading| > 0 {
        sats := Reported(reading[0]);
        if |reading| <= 1 { return; }
        lat := Some(reading[1]);
        if |reading| <= 2 { return; }
        lon := Some(reading[2]);
        if |reading| <= 3 { return; }
        alt := Some(reading[3]);
        if |reading| <= 4 { return; }
        speed := Some(reading[4]);
        if |reading| <= 5 { return; }
        course := Some(reading[5]);
        if |reading| <= 6 { return; }
        datetime := IsoDateTime.FromIsoFormat(reading[6] + IsoDateTime.UtcSuffix);
      }
    }
  }

  /** `Reading(data)`: construction followed by parsing, where the decoding
      error escapes and no reading is produced. */
  method NewReading(data: seq<Utf8.byte>) returns (r: Result<Reading, DecodeError>)
    ensures r.Success? <==> Utf8.IsValid(data)
    ensures r.Success? ==>
      fresh(r.value) && r.value.data == data && ParseLine(data) == Some(r.value.Snapshot())
  {
    var reading := new Reading(data);
    var outcome := reading.ParseData();
    Utf8.DecodeSucceedsIffValid(data);
    if outcome.Fail? {
      return Failure(outcome.error);
    }
    return Success(reading);
  }

  /** A line that is the UTF-8 encoding of some text reads as that text. */
  lemma ParseEncodedLine(text: string)
    ensures ParseLine(Utf8.Encode(text)) == Some(ParseText(text))
  {
    Utf8.DecodeEncode(text);
  }

  /** Construction fails exactly on the lines that are not valid UTF-8. */
  lemma ParseFailsIffInvalid(data: seq<Utf8.byte>)
    ensures ParseLine(data).None? <==> !Utf8.IsValid(data)
  {
    Utf8.DecodeSucceedsIffValid(data);
  }

  lemma {:induction false} RemoveNewlinesAppend(a: string, b: string)
    ensures RemoveNewlines(a + b) == RemoveNewlines(a) + RemoveNewlines(b)
  {
    if a == [] {
      assert a + b == b;
    } else {
      assert (a + b)[1..] == a[1..] + b;
      RemoveNewlinesAppend(a[1..], b);
    }
  }

  function Newlines(n: nat): (s: string)
    ensures |s| == n && forall i :: 0 <= i < n ==> s[i] == '\n'
  {
    if n == 0 then [] else Newlines(n - 1) + ['\n']
  }

  lemma {:induction false} EncodeNewlines(n: nat)
    ensures Utf8.Encode(Newlines(n)) == seq(n, _ => 0x0A)
  {
    if n > 0 {
      Utf8.EncodeAppend(Newlines(n - 1), ['\n']);
      EncodeNewlines(n - 1);
    }
  }

  /** An empty line, or one made only of newlines, has no fields, so the
      reading keeps every default. */
  lemma EmptyLineKeepsDefaults(data: seq<Utf8.byte>)
    requires forall i :: 0 <= i < |data| ==> data[i] == 0x0A
    ensures ParseLine(data) == Some(Defaults)
  {
    EncodeNewlines(|data|);
    assert data == Utf8.Encode(Newlines(|data|));
    Utf8.DecodeEncode(Newlines(|data|));
    NoTextLeft(|data|);
  }

  lemma {:induction false} NoTextLeft(n: nat)
    ensures RemoveNewlines(Newlines(n)) == []
  {
    if n > 0 {
      RemoveNewlinesAppend(Newlines(n - 1), ['\n']);
      NoTextLeft(n - 1);
    }
  }

  /** A newline byte inserted between two valid pieces of a line changes
      nothing: newlines are deleted wherever they stand. */
  lemma NewlineInsertionIgnored(a: seq<Utf8.byte>, b: seq<Utf8.byte>)
    requires Utf8.IsValid(a) && Utf8.IsValid(b)
    ensures ParseLine(a + [0x0A] + b) == ParseLine(a + b)
  {
    var s :| Utf8.Encode(s) == a;
    var t :| Utf8.Encode(t) == b;
    var joined, split := s + t, s + ['\n'] + t;
    assert Utf8.Encode(joined) == a + b by {
      Utf8.EncodeAppend(s, t);
    }
    assert Utf8.Encode(split) == a + [0x0A] + b by {
      Utf8.EncodeAppend(s, ['\n']);
      Utf8.EncodeAppend(s + ['\n'], t);
      assert Utf8.Encode(['\n']) == [0x0A];
    }
    assert RemoveNewlines(split) == RemoveNewlines(joined) by {
      RemoveNewlinesAppend(s, t);
      RemoveNewlinesAppend(s, ['\n']);
      RemoveNewlinesAppend(s + ['\n'], t);
      assert RemoveNewlines(['\n']) == [];
      assert RemoveNewlines(s) + [] == RemoveNewlines(s);
    }
    Utf8.DecodeEncode(joined);
    Utf8.DecodeEncode(split);
  }

  /** With seven or more fields the first six attributes are fields 0 to 5,
      verbatim. The timestamp is set exactly when field 6 is a valid
      `YYYY-MM-DDTHH:MM:SS` date-time, in UTC; an empty field 6 gives None. */
  lemma FullLine(text: string)
    requires |LineFields(text)| >= 7
    ensures var fs, r := LineFields(text), ParseText(text);
      && r.sats == Reported(fs[0]) && r.lat == Some(fs[1]) && r.lon == Some(fs[2])
      && r.alt == Some(fs[3]) && r.speed == Some(fs[4]) && r.course == Some(fs[5])
      && (r.datetime.Some? <==> IsoDateTime.IsLocalTimestamp(fs[6]))
      && (r.datetime.Some? ==> IsoDateTime.FormatLocal(r.datetime.value) == fs[6] && r.datetime.value.offsetMinutes == 0)
      && (fs[6] == [] ==> r.datetime == None)
  {
    var fs := LineFields(text);
    IsoDateTime.TimestampParsesIff(fs[6]);
    if IsoDateTime.FromIsoFormat(fs[6] + IsoDateTime.UtcSuffix).Some? {
      IsoDateTime.ParsedIsFormatted(fs[6]);
    }
  }

  /** The six text attributes in column order; `sats` reads as None while it
      is still the integer default. */
  function Columns(r: Record): (c: seq<Option<string>>)
    ensures |c| == 6
  {
    [if r.sats.Reported? then Some(r.sats.text) else None, r.lat, r.lon, r.alt, r.speed, r.course]
  }

  /** With k fields, 1 <= k <= 6, the first k attributes are fields 0 to k-1
      and the others, the timestamp among them, keep their defaults. */
  lemma ShortLine(text: string)
    requires 1 <= |LineFields(text)| <= 6
    ensures var fs, r := LineFields(text), ParseText(text);
      && r.sats == Reported(fs[0])
      && (forall i :: 0 <= i < 6 ==> Columns(r)[i] == if i < |fs| then Some(fs[i]) else None)
      && r.datetime == None
  {
  }

  /** Fields at index 7 and beyond are never read. */
  lemma ExtraFieldsIgnored(r: Record, fs: seq<string>, extra: seq<string>)
    requires |fs| >= 7
    ensures Populate(r, fs + extra) == Populate(r, fs) == Populate(r, fs[..7])
  {
  }

  lemma {:induction false} RemoveNewlinesKeeps(s: string, c: char)
    requires c != '\n'
    ensures Csv.Count(RemoveNewlines(s), c) == Csv.Count(s, c)
    ensures c in RemoveNewlines(s) <==> c in s
  {
    if s != [] {
      RemoveNewlinesKeeps(s[1..], c);
      var head := if s[0] == '\n' then [] else [s[0]];
      var rest := RemoveNewlines(s[1..]);
      assert RemoveNewlines(s) == head + rest;
      assert s == [s[0]] + s[1..];
      Csv.CountAppend(head, rest, c);
    }
  }

  /** In a line without quotes that is not all newlines, there is one field
      more than there are commas, and the fields are the pieces between them. */
  lemma UnquotedFieldCount(text: string)
    requires '"' !in text && RemoveNewlines(text) != []
    ensures LineFields(text) == Csv.SplitOn(RemoveNewlines(text), ',')
    ensures |LineFields(text)| == Csv.Count(text, ',') + 1
  {
    RemoveNewlinesKeeps(text, '"');
    RemoveNewlinesKeeps(text, ',');
    Csv.UnquotedFields(RemoveNewlines(text));
  }

  /** Fields free of commas, quotes and newlines, written with commas between
      them, are read back as they were. */
  lemma RowOfJoined(fs: seq<string>)
    requires |fs| > 1 || (|fs| == 1 && fs[0] != [])
    requires forall i :: 0 <= i < |fs| ==> ',' !in fs[i] && '"' !in fs[i] && '\n' !in fs[i]
    ensures LineFields(Csv.Join(fs, ',')) == fs
  {
    var text := Csv.Join(fs, ',');
    Csv.JoinAvoids(fs, ',', '"');
    Csv.JoinAvoids(fs, ',', '\n');
    assert text != [] by {
      if |fs| > 1 {
        assert text == fs[0] + [','] + Csv.Join(fs[1..], ',');
      }
    }
    Csv.UnquotedFields(text);
    Csv.SplitOnJoin(fs, ',');
  }

  /** A line whose fields after the first are all empty: `03,,,,,,`. */
  lemma SparseLineExample(fs: seq<string>)
    requires fs == ["03", "", "", "", "", "", ""]
    ensures Csv.Join(fs, ',') == "03,,,,,,"
    ensures ParseText(Csv.Join(fs, ','))
         == Record(Reported("03"), Some(""), Some(""), Some(""), Some(""), Some(""), None)
  {
    JoinSeven(fs);
    assert fs[0] + "," + fs[1] + "," + fs[2] + "," + fs[3] + "," + fs[4] + "," + fs[5] + "," + fs[6]
        == "03" + ",,,,,,";
    RowOfJoined(fs);
  }

  /** A full line with a timestamp, read as that time in UTC:
      `07,40.7128,-74.0060,10,1.2,45,2024-03-01T12:00:00`. */
  lemma FullLineExample(fs: seq<string>)
    requires fs == ["07", "40.7128", "-74.0060", "10", "1.2", "45", "2024-03-01T12:00:00"]
    ensures Csv.Join(fs, ',')
         == "07" + "," + "40.7128" + "," + "-74.0060" + "," + "10" + "," + "1.2" + "," + "45" + ","
            + "2024-03-01T12:00:00"
    ensures ParseText(Csv.Join(fs, ','))
         == Record(Reported("07"), Some("40.7128"), Some("-74.0060"), Some("10"),
                   Some("1.2"), Some("45"), Some(IsoDateTime.DateTime(2024, 3, 1, 12, 0, 0, 0)))
  {
    JoinSeven(fs);
    RowOfJoined(fs);
    IsoDateTime.TimestampExample(fs[6]);
  }

  /** A seven-field row written out with its commas. */
  lemma JoinSeven(fs: seq<string>)
    requires |fs| == 7
    ensures Csv.Join(fs, ',')
         == fs[0] + "," + fs[1] + "," + fs[2] + "," + fs[3] + "," + fs[4] + "," + fs[5] + "," + fs[6]
  {
    assert Csv.Join(fs[6..], ',') == fs[6];
    assert Csv.Join(fs[5..], ',') == fs[5] + "," + Csv.Join(fs[6..], ',');
    assert Csv.Join(fs[4..], ',') == fs[4] + "," + Csv.Join(fs[5..], ',');
    assert Csv.Join(fs[3..], ',') == fs[3] + "," + Csv.Join(fs[4..], ',');
    assert Csv.Join(fs[2..], ',') == fs[2] + "," + Csv.Join(fs[3..], ',');
    assert Csv.Join(fs[1..], ',') == fs[1] + "," + Csv.Join(fs[2..], ',');
  }
}
