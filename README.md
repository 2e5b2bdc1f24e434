# GPS speedometer: the `Reading` parser

The program polls a GPS sensor on a serial port. Each poll returns one raw
line of bytes, and the program turns it into a `Reading` holding seven
attributes: `sats`, `lat`, `lon`, `alt`, `speed`, `course` and `datetime`.
This project models that conversion and proves its properties in Dafny.

The conversion has four steps, in this order:

1. `__init__` keeps the raw bytes in `data` and sets every attribute to its
   default. `sats` starts as the integer `0`; the other six start as `None`.
2. `_parse_data` decodes the bytes as UTF-8 and deletes every `'\n'`.
3. It splits the text into one CSV row, using the `csv` module's default
   dialect.
4. It assigns fields 0–5 verbatim, as text, to `sats` … `course`. It then
   appends `+00:00` to field 6 and parses the result as an ISO 8601
   date-time.

Three failures are handled as follows:

- A row that is too short raises `IndexError` at the first missing index.
  The handler absorbs it. Attributes assigned before that index keep their
  new values, and the rest keep their defaults.
- A timestamp that does not parse raises `ValueError`, and `datetime`
  becomes `None`. An empty field 6 always ends up here.
- Bytes that are not valid UTF-8 raise inside the constructor, outside both
  handlers. No reading is produced.

Files (one module each):

- `wrappers.dfy`: `Option`, `Result`, `Outcome`.
- `utf8.dfy`: strict UTF-8 decoding (what `bytes.decode('utf-8')` accepts)
  and encoding, proved to be inverse to each other.
- `csv.dfy`: the `csv.reader` state machine for one line. Its states are
  start of field, unquoted field, quoted field, and quote inside a quoted
  field. It comes with a reference `str.split` and a quoting writer.
- `iso_datetime.dfy`: a simplified `datetime.fromisoformat`.
- `app.py` in the source is `app.dfy` here:
  - `Reading` is a class with the seven attributes and `const data`.
  - The `Reading` constructor sets the defaults.
  - `ParseData` is the sequential assignment, which stops at the first
    missing index.
  - `NewReading` is `Reading(data)` as a caller sees it: either a reading
    or the decode error.
  - `Populate` is the positional table that `ParseData` is proved against.
  - `ParseLine` is the record a new reading holds, as a function of the
    bytes.

What `app.py` does, and the model with it:

- `sats` defaults to the integer `0` (app.py:19); the other six attributes
  default to `None`.
- Only row indices 0–6 are read (app.py:42-50); any later field is ignored.
- A UTF-8 error escapes from the constructor: the decode (app.py:34) sits
  outside the `try` that starts at app.py:41.
- Every `'\n'` is deleted (app.py:34), wherever it appears in the line, not
  only a trailing one.

## Model

| member | source | states |
|---|---|---|
| `App.Reading.constructor` | app.py:15-25 | keeps the raw line unchanged in `data`; `sats` is the integer default, the other six attributes are `None` |
| `App.Reading.ParseData` | app.py:30-58 | succeeds exactly when `data` is valid UTF-8, and then the new attributes are `Populate` of the old ones and the row (fields present are assigned in order, the rest keep their values); on a decoding error nothing changes and the error is returned |
| `App.NewReading` | app.py:15-28 | produces a fresh reading exactly when the line is valid UTF-8, with `data` kept and attributes equal to `ParseLine(data)`; otherwise returns the decoding error |
| `App.RemoveNewlines` | app.py:34 | the result has no `'\n'`, loses exactly the newlines of the input, and is the input itself when there are none |
| `App.RemoveNewlinesAppend` | app.py:34 | deleting newlines distributes over concatenation |
| `App.RemoveNewlinesKeeps` | app.py:34 | deleting newlines keeps the number of every other character and whether it occurs |
| `App.ParseFailsIffInvalid` | app.py:34-41 | construction fails exactly on the lines that are not valid UTF-8 (the decode sits outside the `try`) |
| `App.ParseEncodedLine` | app.py:34 | a line that encodes some text yields the record of that text |
| `App.EmptyLineKeepsDefaults` | app.py:19-40 | a line that is empty or all newline bytes yields exactly the defaults |
| `App.NewlineInsertionIgnored` | app.py:34 | inserting a newline byte between two valid pieces of a line does not change the record |
| `App.FullLine` | app.py:42-55 | with at least 7 fields, `sats` … `course` are fields 0–5 verbatim; `datetime` is set iff field 6 is a valid `YYYY-MM-DDTHH:MM:SS` date-time, is then that time in UTC and writes back as field 6; an empty field 6 gives `None` |
| `App.ShortLine` | app.py:41-58 | with 1 ≤ k ≤ 6 fields, the first k attributes are fields 0..k-1, the other text attributes and `datetime` keep their defaults |
| `App.ExtraFieldsIgnored` | app.py:42-50 | fields at index 7 and beyond never influence the record |
| `App.UnquotedFieldCount` | app.py:34-37 | for a line without quotes that is not all newlines, the row is the comma-separated pieces and has one field more than the line has commas |
| `App.RowOfJoined` | app.py:34-37 | fields free of commas, quotes and newlines, joined with commas, are read back as they were |
| `App.SparseLineExample` | app.py:34-55 | the fields joined with commas are the line `03,,,,,,`, which gives `sats = "03"`, five empty strings, `datetime = None` |
| `App.FullLineExample` | app.py:34-55 | the fields joined with commas are the line `07,40.7128,-74.0060,10,1.2,45,2024-03-01T12:00:00`, which gives those six texts and 2024-03-01 12:00:00 UTC |
| `Utf8.DecodeFirst` | app.py:34 | a decoded scalar value takes as many bytes as its leading byte announces, and no more than there are |
| `Utf8.DecodeEncode` | app.py:34 | decoding the UTF-8 encoding of any text gives that text back |
| `Utf8.EncodeDecode` | app.py:34 | whatever decodes is the canonical encoding of its result (no overlong forms, surrogates or values past U+10FFFF are accepted) |
| `Utf8.DecodeSucceedsIffValid` | app.py:34 | decoding succeeds exactly on the bytes that encode some text |
| `Utf8.EncodeAppend` | app.py:34 | encoding distributes over concatenation |
| `Csv.SplitOn` | app.py:34-37 | the reference split has one piece more than separators |
| `Csv.RunAppend` | app.py:34-37 | reading a line in two parts is reading it at once |
| `Csv.UnquotedFields` | app.py:34-37 | for a non-empty line without quotes the reader's row is the reference comma split, with one field more than commas |
| `Csv.QuotedFieldRun` | app.py:34-37 | a quoted field with doubled quotes is read as its exact text, commas included |
| `Csv.QuotedRowRoundTrip` | app.py:34-37 | every row, whatever its fields contain, is read back exactly from its fully quoted form; the row with no fields is the empty line |
| `Csv.SplitOnJoin` | app.py:34-37 | the reference split undoes joining for pieces without the separator |
| `IsoDateTime.FromIsoFormat` | app.py:50 | whatever parses is a valid date-time (month lengths, leap years, 24-hour time, offset under a day) |
| `IsoDateTime.ParseFormatted` | app.py:50 | a valid UTC date-time written as `YYYY-MM-DDTHH:MM:SS` plus `+00:00` parses back to itself |
| `IsoDateTime.ParsedIsFormatted` | app.py:50 | whatever parses once `+00:00` is appended is a valid UTC date-time whose written form is the field itself |
| `IsoDateTime.TimestampParsesIff` | app.py:49-55 | field 6 with `+00:00` appended parses exactly when it is a valid `YYYY-MM-DDTHH:MM:SS` date-time, and then with offset 0 |
| `IsoDateTime.TimestampExample` | app.py:50 | `2024-03-01T12:00:00` is read as 2024-03-01 12:00:00 UTC |

Every line is parsed independently, and `ParseLine` is a function of the
bytes alone. So parsing the same line twice gives equal records.

## Left out

- The `__main__` polling loop (app.py:61-82) is not modelled. It covers the
  serial port settings, `readline`, the `print` reporting and `del`, all of
  which are I/O around the parser.
- IsoDateTime.FromIsoFormat: weaker than `datetime.fromisoformat`. It
  accepts only `YYYY-MM-DDTHH:MM:SS±HH:MM`. Python also accepts dates
  without a time, `HH` or `HH:MM` times, fractional seconds, other
  separators and, in newer versions, many other ISO 8601 forms. For such a
  field the model gives `datetime = None` where Python would set it.
- Csv.Fields: covers only `,` separators and `"` quoting with doubled
  quotes, in the default, non-strict dialect. Several cases that raise
  `csv.Error` out of the constructor are not modelled, because they belong
  to the foreign `csv` module:
  - a `'\r'` that ends the record and is followed by more text, since the
    model reads `'\r'` as an ordinary character;
  - a NUL character, on Python versions that reject it;
  - the field size limit.
- Csv.Fields: keeps a trailing `'\r'` with nothing after it in the last
  field. CPython ends the record there and drops the `'\r'`, so
  `reader(['a,b\r'])` gives `['a', 'b']` and `reader(['\r'])` gives `[]`,
  while the model has `Csv.Fields("a,b\r") == ["a", "b\r"]`. Two
  consequences follow. A line that is only `\r\n` gives
  `sats == Reported("\r")` in the model, where the source keeps the
  defaults. A line ending `…,2024-03-01T12:00:00\r\n` gives
  `datetime = None` in the model, where the source sets the time.
- Utf8.Decode: says only whether decoding succeeds. It does not model the
  position or the message of the `UnicodeDecodeError`.
- A `data` value that is not a bytes object is not modelled; the model
  takes a byte sequence.
