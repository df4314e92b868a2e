# SRT serialisation of the ROCm Whisper API

The service in `app/main.py` transcribes an uploaded audio file with Whisper. When
the client asks for `response_format=srt`, it turns the recognised segments into
SubRip subtitle text. It also reports the audio duration as the end of the last
segment. This project models that pure core in Dafny:

- `format_timestamp`: seconds to `HH:MM:SS,mmm`.
- `generate_srt`: segments to SRT lines, one numbered cue of four lines per
  segment, joined with line breaks.
- The duration rule of the `/transcribe` handler.

The model also contains the Python string operations the serialiser relies on:

- `f"{i}"`;
- `f"{n:02d}"` and `f"{n:03d}"`;
- `str.strip()`;
- `"\n".join(...)`.

To have something to check the output against, the project adds a reader for the
text it produces. `ParseTimestamp` and `ParseSrt` undo `format_timestamp` and
`generate_srt`, and the round-trip lemmas tie each writer to its reader.

Modules:

- `Text` (`text.dfy`): decimal numerals and zero padding, `str.strip()`, join and
  split, and the parsers that undo them.
- `Timestamp` (`timestamp.dfy`): the clock fields of a number of seconds, their
  rendering, and a timestamp reader.
- `CueBlocks` (`cue_blocks.dfy`): line lists made of numbered four-line blocks and
  reading them back, for any item type.
- `Srt` (`srt.dfy`): segments, `generate_srt` as a loop, the SRT reader, and the
  duration rule.

Seconds are exact real numbers. Python's float `//` becomes floor division over
the reals, and `%` becomes the floor remainder, whose sign follows the divisor.
`int()` becomes truncation toward zero. The model does not require the seconds to
be non-negative, because the source does not. A negative offset gives negative
hours, rendered as Python's `02d` renders them: `-1` stays `-1`, and the sign
counts toward the width.

## Model

| member | source | states |
|---|---|---|
| Timestamp.FloorDiv | app/main.py:38-39 | Python's float `x // m` for m > 0: an integer-valued q with q ≤ x/m < q + 1. |
| Timestamp.FloorMod | app/main.py:39-41 | Python's float `x % m` for m > 0: a remainder in [0, m), so it takes the divisor's sign, with x = m·(x // m) + remainder. |
| Timestamp.Trunc | app/main.py:38-41 | `int()` on a float truncates toward zero: for x ≥ 0 it is the largest integer ≤ x, and for x < 0 the smallest integer ≥ x. |
| Timestamp.Fields | app/main.py:38-41 | Minutes and seconds are below 60 and milliseconds below 1000. `hours*3600 + minutes*60 + secs` is the whole part of the seconds, rounded toward minus infinity. The milliseconds are the fraction times 1000, truncated. Together the fields make up the total number of whole milliseconds. |
| Timestamp.FormatTimestamp | app/main.py:36-42 | Definition of `format_timestamp`: the fields, rendered. Its properties are in FormatTimestampLayout, FormatTimestampHours, ParseFormatTimestamp, FormatTimestampInjective and FormatTimestampExample. |
| Timestamp.Render | app/main.py:42 | Definition of the f-string `f"{hours:02d}:{minutes:02d}:{secs:02d},{millis:03d}"`. Its properties are in RenderLayout, RenderHours and ParseRender. |
| Timestamp.FormatTimestampLayout | app/main.py:42 | The timestamp ends in `:MM:SS,mmm`. Everything before that is exactly `f"{hours:02d}"` of the computed hours. It holds only digits, `-`, `:` and `,`. For 0 ≤ seconds < 360000 it is exactly 12 characters, with `:` at 2 and 5, `,` at 8 and digits elsewhere. |
| Timestamp.FormatTimestampHours | app/main.py:37-42 | The hours field is exact for every offset. Below 10 hours it is `0` and the digit. From 10 hours on it is the plain numeral, so 100 hours and more widen the field with no extra zeros. Negative hours are `-` and the plain numeral. |
| Timestamp.HoursPiece | app/main.py:42 | `f"{h:02d}"` is `0` and the digit for 0 ≤ h < 10, `f"{h}"` for h ≥ 10, and `-` followed by `f"{-h}"` for h < 0. |
| Timestamp.RenderLayout | app/main.py:42 | Rendering in-range fields gives the timestamp shape. The hours field is exactly two digits when 0 ≤ hours < 100. |
| Timestamp.RenderHours | app/main.py:42 | For in-range fields, everything before the last ten characters is `f"{hours:02d}"`, however wide it is. |
| Timestamp.ParseFormatTimestamp | app/main.py:36-42 | Reading a timestamp back gives exactly the fields it was made from: hours, minutes, seconds and milliseconds. |
| Timestamp.ParseRender | app/main.py:42 | Reading back a rendered clock whose fields are in range recovers the clock. |
| Timestamp.FormatTimestampInjective | app/main.py:36-42 | Two offsets give the same timestamp if and only if they have the same number of whole milliseconds. |
| Timestamp.ClockUnique | app/main.py:38-41 | Two in-range clocks with the same total number of milliseconds are equal. |
| Timestamp.FormatTimestampExample | app/main.py:36-42 | 3661.5 seconds is rendered `01:01:01,500`. |
| Text.Decimal | app/main.py:29 | `f"{i}"` of a non-negative integer: a non-empty string of digits whose value is i, with no leading zero unless i is 0. |
| Text.DecimalOfDigitsValue | app/main.py:29 | Every digit string without a redundant leading zero is `f"{i}"` of its own value, so `f"{i}"` is the unique shortest numeral. |
| Srt.ParseDecimal | app/main.py:29 | The cue number reads back as the integer it was made from. |
| Text.PadDecimal | app/main.py:42 | `f"{n:0Wd}"`: a non-negative n gives digits whose value is n. A negative n gives `-` followed by digits whose value is -n. The length is exactly the larger of W and the length of the unpadded numeral, sign included. When the numeral already fills W, the result is the numeral itself with no zeros added. |
| Text.PadDecimalWidth | app/main.py:42 | A value below 10^W fills exactly W characters. |
| Text.ParsePadDecimal | app/main.py:42 | Reading a padded numeral back gives its integer, sign included. |
| Text.Strip | app/main.py:27 | `str.strip()`: the result is a slice of the text with only whitespace outside it. Its first and last characters are not whitespace. It is empty exactly when the text is all whitespace. |
| Text.StripIdempotent | app/main.py:27 | Stripping a stripped text changes nothing. |
| Text.Join | app/main.py:34 | `sep.join(lines)`: no lines give the empty string, and the result starts with the first line. |
| Text.SplitJoin | app/main.py:34 | When no line contains the separator and there is at least one line, splitting the joined text gives back the lines. |
| Text.JoinSplit | app/main.py:34 | Joining the pieces of a split gives back the text. |
| Srt.TimingLine | app/main.py:30 | Definition of `f"{start_time} --> {end_time}"`. Its properties are in ParseTimingLine and CueLinesNoNewline. |
| Srt.CueLines | app/main.py:29-32 | Definition of the four lines one segment appends. Its properties are in SrtLinesCue, ParseCueLines and CueLinesNoNewline. |
| Srt.CueLinesNoNewline | app/main.py:29-32 | No line of a cue holds a line break, provided the stripped text does not. |
| Srt.SrtLines | app/main.py:23-32 | The line list has four lines per segment. |
| Srt.SrtLinesCue | app/main.py:24-32 | Lines 4i to 4i+3 are the cue of segment i, in input order: the number i+1, `start --> end`, the stripped text, and an empty line. |
| Srt.GenerateSrt | app/main.py:21-34 | The loop appends one four-line cue per segment. The result is the full line list joined with `"\n"`. No segments give the empty string. |
| Srt.ParseTimingLine | app/main.py:30 | The timing line reads back as the fields of the start and the end offsets. |
| Srt.ParseCueLines | app/main.py:29-32 | The four lines of a cue read back as its number, both timestamps' fields and the stripped text. |
| Srt.SrtRoundTrip | app/main.py:21-34 | Reading the SRT text gives one cue per segment, in order and numbered from 1. Each cue holds the fields of both offsets and the stripped text. This holds whenever no stripped text contains a line break. |
| Srt.Duration | app/main.py:120-123 | With no segments the duration is 0. Otherwise it is the end of one of the segments. Which one is stated in DurationCoversSegments and DurationIsLastCueEnd. |
| Srt.DurationCoversSegments | app/main.py:120-123 | When end offsets never decrease, no segment ends after the reported duration. |
| Srt.DurationIsLastCueEnd | app/main.py:120-123 | For non-empty segments, the reported duration is the end time of the last cue in the SRT text. |

## Left out

- Model loading, the device choice (CUDA/ROCm or CPU), the health-check route and the FastAPI plumbing: framework and hardware code with no logic of its own here. This covers the 503 error, the temporary file, the JSON responses and the plain-text response format.
- `model.transcribe`: Whisper itself is not modelled. Its segments (start, end, text) are the input of the model.
- `result.get("segments")` with the key missing: treated like an empty list, which also gives duration 0.
- `round(duration, 2)` in the response: the model states the unrounded duration.
- Timestamp.Fields: works on exact reals, not IEEE doubles. A float artefact such as `(x % 1) * 1000` landing just below a whole number, which truncation then turns into one millisecond less, is not modelled.
- Text.IsSpace: follows the characters `str.isspace()` accepts. It does not model Unicode case or normalisation, which `strip()` does not use.
- Srt.SrtRoundTrip: requires that no stripped text contains a line break. A text with an inner `\n` makes the SRT ambiguous, and the source does not escape it.
- Subtitle formats other than SRT (VTT, JSON, verbose JSON) and the `/v1/audio/transcriptions` and `/v1/audio/transcriptions/srt` routes. `client_example.py` calls those routes and offers those formats (lines 21-26, 43, 53-58 and 86). `app/main.py` implements only `/transcribe` with `srt` or plain text, and the model follows `app/main.py`.
