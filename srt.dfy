/** `generate_srt` of app/main.py, which serialises the transcription segments as
    SubRip (SRT) text, the duration rule of the `/transcribe` handler, and a reader
    for the SRT text that recovers what was serialised. */
module Srt {
  import opened Text
  import opened Timestamp
  import opened CueBlocks

  /** One segment of the transcription result: start and end offsets in seconds and
      the recognised text. */
  datatype Segment = Segment(start: real, end: real, text: string)

  /** The timing line `f"{start_time} --> {end_time}"`. */
  function TimingLine(seg: Segment): string {
    FormatTimestamp(seg.start) + " --> " + FormatTimestamp(seg.end)
  }

  /** The four lines appended for the segment numbered `index`: the number, the
      timing line, the stripped text and a blank separator line. */
  function CueLines(index: nat, seg: Segment): seq<string> {
    [Decimal(index), TimingLine(seg), Strip(seg.text), ""]
  }

  /** The line list `srt_output` once every segment has been visited: the cues of
      the segments in input order, numbered from 1, four lines each. */
  function SrtLines(segments: seq<Segment>): (lines: seq<string>)
    ensures |lines| == 4 * |segments|
  {
    BlocksLength(segments, CueLines);
    Blocks(segments, CueLines)
  }

  /** Lines 4i..4i+3 are the cue of the i-th segment (0-based), numbered i + 1: no
      segment is dropped, merged or moved. */
  lemma SrtLinesCue(segments: seq<Segment>, i: nat)
    requires i < |segments|
    ensures SrtLines(segments)[4 * i..4 * i + 4]
         == [Decimal(i + 1), TimingLine(segments[i]), Strip(segments[i].text), ""]
  {
    BlocksAt(segments, CueLines, i);
  }

  /** `generate_srt(segments)` (app/main.py:21-34): appends four lines per segment,
      numbering from 1 as `enumerate(segments, start=1)` does, then joins the lines
      with "\n". No segments give the empty string. */
  method GenerateSrt(segments: seq<Segment>) returns (srt: string)
    ensures srt == Join(SrtLines(segments), "\n")
    ensures segments == [] ==> srt == ""
  {
    var output: seq<string> := [];
    for i := 0 to |segments|
      invariant output == SrtLines(segments[..i])
    {
      var index := i + 1;
      var segment := segments[i];
      var startTime := FormatTimestamp(segment.start);
      var endTime := FormatTimestamp(segment.end);
      var text := Strip(segment.text);
      ghost var before := output;
      output := output + [Decimal(index)];
      output := output + [startTime + " --> " + endTime];
      output := output + [text];
      output := output + [""];
      AppendFour(before, Decimal(index), startTime + " --> " + endTime, text, "");
      assert [Decimal(index), startTime + " --> " + endTime, text, ""] == CueLines(index, segment);
      BlocksSnoc(segments, CueLines, i);
    }
    assert segments[..|segments|] == segments;
    srt := Join(output, "\n");
  }

  // ---------------------------------------------------------------------------
  // Reading SRT text back
  // ---------------------------------------------------------------------------

  /** One cue as a reader of the SRT text sees it. */
  datatype Cue = Cue(index: int, start: Clock, end: Clock, text: string)

  /** Splits a timing line at its first space, which must open " --> ". */
  function ParseTiming(line: string): Option<(Clock, Clock)> {
    if ' ' !in line then None
    else
      var k := IndexOf(line, ' ');
      if k + 5 <= |line| && line[k..k + 5] == " --> " then
        match (ParseTimestamp(line[..k]), ParseTimestamp(line[k + 5..]))
        case (Some(a), Some(b)) => Some((a, b))
        case _ => None
      else None
  }

  /** Reads four lines as a cue: a number, a timing line, the text, a blank line. */
  function ParseCue(lines: seq<string>): Option<Cue> {
    if |lines| != 4 then None
    else
      var index := ParseInt(lines[0]);
      var timing := ParseTiming(lines[1]);
      if index.Some? && timing.Some? && lines[3] == "" then
        Some(Cue(index.value, timing.value.0, timing.value.1, lines[2]))
      else None
  }

  /** Reads SRT text: the empty text has no cues, any other is split into lines
      that are read four at a time. */
  function ParseSrt(srt: string): Option<seq<Cue>> {
    if srt == "" then Some([]) else ParseGroups(Split(srt, '\n'), ParseCue)
  }

  /** The cue a segment should produce when it is numbered `index`. */
  function ExpectedCue(index: nat, seg: Segment): Cue {
    Cue(index, Fields(seg.start), Fields(seg.end), Strip(seg.text))
  }

  /** The cues the segments should produce, numbered from 1 in input order. */
  function ExpectedCues(segments: seq<Segment>): seq<Cue> {
    Numbered(segments, ExpectedCue)
  }

  /** A timestamp holds no space and no line break. */
  lemma NoSpaceInTimestamp(seconds: real)
    ensures ' ' !in FormatTimestamp(seconds) && '\n' !in FormatTimestamp(seconds)
  {
    FormatTimestampLayout(seconds);
    NoSpaceInTimestampChars(FormatTimestamp(seconds));
  }

  lemma NoSpaceInTimestampChars(r: string)
    requires forall k :: 0 <= k < |r| ==> IsTimestampChar(r[k])
    ensures ' ' !in r && '\n' !in r
  {
  }

  /** Any two strings joined by " --> ", the first without a space, split back at
      the arrow. */
  lemma ParseTimingPieces(a: string, b: string)
    requires ' ' !in a
    ensures ParseTiming(a + " --> " + b)
         == match (ParseTimestamp(a), ParseTimestamp(b))
            case (Some(x), Some(y)) => Some((x, y))
            case _ => None
  {
    var line := a + " --> " + b;
    assert line[..|a|] == a;
    assert line[|a|] == ' ';
    IndexOfFirst(line, ' ', |a|);
    assert line[|a|..|a| + 5] == " --> ";
    assert line[|a| + 5..] == b;
  }

  /** The timing line reads back as the fields of both offsets. */
  lemma ParseTimingLine(seg: Segment)
    ensures ParseTiming(TimingLine(seg)) == Some((Fields(seg.start), Fields(seg.end)))
  {
    NoSpaceInTimestamp(seg.start);
    ParseTimingPieces(FormatTimestamp(seg.start), FormatTimestamp(seg.end));
    ParseFormatTimestamp(seg.start);
    ParseFormatTimestamp(seg.end);
  }

  /** A numeral with no sign reads back as its value. */
  lemma ParseDecimal(n: nat)
    ensures ParseInt(Decimal(n)) == Some(n)
  {
    var s := Decimal(n);
    assert IsDigit(s[0]);
  }

  /** The four lines of a cue read back as the expected cue. */
  lemma ParseCueLines(index: nat, seg: Segment)
    ensures ParseCue(CueLines(index, seg)) == Some(ExpectedCue(index, seg))
  {
    ParseDecimal(index);
    ParseTimingLine(seg);
    ParseCueFour(Decimal(index), TimingLine(seg), Strip(seg.text),
                 index, (Fields(seg.start), Fields(seg.end)));
  }

  lemma ParseCueFour(number: string, timing: string, text: string, i: int, t: (Clock, Clock))
    requires ParseInt(number) == Some(i) && ParseTiming(timing) == Some(t)
    ensures ParseCue([number, timing, text, ""]) == Some(Cue(i, t.0, t.1, text))
  {
  }

  /** A numeral holds no line break. */
  lemma DigitsNoNewline(s: string)
    requires AllDigits(s)
    ensures '\n' !in s
  {
  }

  lemma ArrowNoNewline(a: string, b: string)
    requires '\n' !in a && '\n' !in b
    ensures '\n' !in a + " --> " + b
  {
  }

  lemma FourAvoid(a: string, b: string, c: string, d: string, ch: char)
    requires ch !in a && ch !in b && ch !in c && ch !in d
    ensures LinesAvoid([a, b, c, d], ch)
  {
  }

  /** No line of one cue holds a line break, provided the stripped text does not. */
  lemma CueLinesNoNewline(index: nat, seg: Segment)
    requires '\n' !in Strip(seg.text)
    ensures LinesAvoid(CueLines(index, seg), '\n')
  {
    DigitsNoNewline(Decimal(index));
    NoSpaceInTimestamp(seg.start);
    NoSpaceInTimestamp(seg.end);
    ArrowNoNewline(FormatTimestamp(seg.start), FormatTimestamp(seg.end));
    FourAvoid(Decimal(index), TimingLine(seg), Strip(seg.text), "", '\n');
  }

  /** No line of the serialised cues holds a line break, provided no stripped text
      does. */
  lemma SrtLinesNoNewline(segments: seq<Segment>)
    requires forall i :: 0 <= i < |segments| ==> '\n' !in Strip(segments[i].text)
    ensures LinesAvoid(SrtLines(segments), '\n')
  {
    forall i | 0 <= i < |segments|
      ensures LinesAvoid(CueLines(i + 1, segments[i]), '\n')
    {
      CueLinesNoNewline(i + 1, segments[i]);
    }
    BlocksAvoid(segments, CueLines, '\n');
  }

  /** Two or more lines joined by a non-empty separator are not empty. */
  lemma JoinNonEmpty(lines: seq<string>, sep: string)
    requires |lines| >= 2 && sep != ""
    ensures Join(lines, sep) != ""
  {
    assert Join(lines, sep) == lines[0] + sep + Join(lines[1..], sep);
  }

  /** Splitting the serialised text at line breaks gives back the line list. */
  lemma SrtSplit(segments: seq<Segment>)
    requires segments != []
    requires forall i :: 0 <= i < |segments| ==> '\n' !in Strip(segments[i].text)
    ensures Join(SrtLines(segments), "\n") != ""
    ensures Split(Join(SrtLines(segments), "\n"), '\n') == SrtLines(segments)
  {
    var lines := SrtLines(segments);
    SrtLinesNoNewline(segments);
    SplitJoin(lines, '\n');
    JoinNonEmpty(lines, "\n");
  }

  /** The line list reads back as the expected cues. */
  lemma ParseSrtLines(segments: seq<Segment>)
    ensures ParseGroups(SrtLines(segments), ParseCue) == Some(ExpectedCues(segments))
  {
    forall i | 0 <= i < |segments|
      ensures ParseCue(CueLines(i + 1, segments[i])) == Some(ExpectedCue(i + 1, segments[i]))
    {
      ParseCueLines(i + 1, segments[i]);
    }
    ParseBlocks(segments, CueLines, ParseCue, ExpectedCue);
  }

  /** Reading back the output of `generate_srt` gives one cue per segment, in input
      order, numbered 1, 2, 3, ..., with the fields of both offsets and the
      stripped text, as long as no stripped text itself holds a line break. */
  lemma SrtRoundTrip(segments: seq<Segment>)
    requires forall i :: 0 <= i < |segments| ==> '\n' !in Strip(segments[i].text)
    ensures ParseSrt(Join(SrtLines(segments), "\n")) == Some(ExpectedCues(segments))
  {
    ParseSrtLines(segments);
    if segments != [] {
      SrtSplit(segments);
    }
  }

  /** The i-th expected cue is numbered i + 1 and carries segment i. */
  lemma ExpectedCuesAt(segments: seq<Segment>, i: nat)
    requires i < |segments|
    ensures |ExpectedCues(segments)| == |segments|
    ensures ExpectedCues(segments)[i]
         == Cue(i + 1, Fields(segments[i].start), Fields(segments[i].end), Strip(segments[i].text))
  {
    NumberedAt(segments, ExpectedCue, i);
  }

  // ---------------------------------------------------------------------------
  // Reported duration
  // ---------------------------------------------------------------------------

  /** The duration the `/transcribe` handler reports (app/main.py:120-123): the end
      of the last segment, or 0 when there are none. */
  function Duration(segments: seq<Segment>): (d: real)
    ensures segments == [] ==> d == 0.0
    ensures segments != [] ==> exists i :: 0 <= i < |segments| && segments[i].end == d
  {
    if |segments| > 0 then segments[|segments| - 1].end else 0.0
  }

  /** Segments whose end offsets never decrease, as the model returns them. */
  predicate EndsInOrder(segments: seq<Segment>) {
    forall i :: 0 < i < |segments| ==> segments[i - 1].end <= segments[i].end
  }

  /** With ends in order, the reported duration is the latest end of all segments. */
  lemma {:induction false} DurationCoversSegments(segments: seq<Segment>)
    requires EndsInOrder(segments)
    ensures forall i :: 0 <= i < |segments| ==> segments[i].end <= Duration(segments)
    decreases |segments|
  {
    if |segments| > 1 {
      var prefix := segments[..|segments| - 1];
      assert EndsInOrder(prefix);
      DurationCoversSegments(prefix);
    }
  }

  /** The reported duration is the end time the last cue of the SRT text shows. */
  lemma DurationIsLastCueEnd(segments: seq<Segment>)
    requires segments != []
    requires forall i :: 0 <= i < |segments| ==> '\n' !in Strip(segments[i].text)
    ensures var cues := ParseSrt(Join(SrtLines(segments), "\n"));
      cues.Some? && |cues.value| == |segments|
      && cues.value[|segments| - 1].end == Fields(Duration(segments))
  {
    var last := |segments| - 1;
    assert Duration(segments) == segments[last].end;
    SrtRoundTrip(segments);
    ExpectedCuesAt(segments, last);
  }
}
