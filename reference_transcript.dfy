/** The readers of the reference ("Zoom") transcript in utils/utils.py: the cue
    matchers behind `get_timestamps_for_speaker_timestamps` and
    `get_timestamps_for_speaker`, the speaker-name scan of `get_speakers_names`,
    `convert_to_seconds` and `convert_list_of_timestamps_to_seconds`.

    A Zoom transcript is a list of blocks

        00:00:01.500 --> 00:00:04.000
        Alice: good morning

    and the readers find them with `re.findall`. Reading the file is left to the
    caller: every reader here takes the file's text. */
module ReferenceTranscript {
  import opened Wrappers
  import opened Text

  /** `\d{2}:\d{2}:\d{2}\.\d{3}`. */
  predicate IsTimestamp(t: string) {
    && |t| == 12
    && IsDigit(t[0]) && IsDigit(t[1]) && t[2] == ':'
    && IsDigit(t[3]) && IsDigit(t[4]) && t[5] == ':'
    && IsDigit(t[6]) && IsDigit(t[7]) && t[8] == '.'
    && IsDigit(t[9]) && IsDigit(t[10]) && IsDigit(t[11])
  }

  function MatchTimestamp(s: string): (r: Option<(string, string)>)
    ensures r.Some? ==> IsTimestamp(r.value.0) && s == r.value.0 + r.value.1
    ensures r.Some? <==> |s| >= 12 && IsTimestamp(s[..12])
  {
    if |s| >= 12 && IsTimestamp(s[..12]) then
      assert s == s[..12] + s[12..];
      Some((s[..12], s[12..]))
    else None
  }

  lemma MatchTimestampComplete(t: string, rest: string)
    requires IsTimestamp(t)
    ensures MatchTimestamp(t + rest) == Some((t, rest))
  {
    assert (t + rest)[..12] == t;
  }

  /** `\s+` followed by a character it cannot take: the run and what follows. */
  function MatchSpaces(s: string): (r: Option<(string, string)>)
    ensures r.Some? ==> && |r.value.0| > 0 && (forall i :: 0 <= i < |r.value.0| ==> IsSpace(r.value.0[i]))
                        && s == r.value.0 + r.value.1
                        && (|r.value.1| == 0 || !IsSpace(r.value.1[0]))
  {
    var n := Span(s, IsSpace);
    if n == 0 then None
    else
      assert s == s[..n] + s[n..];
      Some((s[..n], s[n..]))
  }

  predicate AllSpaces(s: string) {
    |s| > 0 && forall i :: 0 <= i < |s| ==> IsSpace(s[i])
  }

  lemma MatchSpacesComplete(sp: string, rest: string)
    requires AllSpaces(sp)
    requires |rest| == 0 || !IsSpace(rest[0])
    ensures MatchSpaces(sp + rest) == Some((sp, rest))
  {
    SpanOfConcat(sp, rest, IsSpace);
    assert (sp + rest)[..|sp|] == sp;
  }

  /** One cue line `start<gap>--><gap>end\n`, the two gaps being the text the two
      `\s+` took. */
  datatype CueLine = CueLine(start: string, gapBefore: string, gapAfter: string, end: string)

  predicate WellFormedCue(c: CueLine) {
    IsTimestamp(c.start) && AllSpaces(c.gapBefore) && AllSpaces(c.gapAfter) && IsTimestamp(c.end)
  }

  function CueLineText(c: CueLine): string {
    c.start + (c.gapBefore + ("-->" + (c.gapAfter + (c.end + "\n"))))
  }

  /** `(\d{2}:\d{2}:\d{2}\.\d{3})\s+-->\s+(\d{2}:\d{2}:\d{2}\.\d{3})\n` at the
      head of `s`. Each greedy `\s+` is followed by a character it cannot take
      (`-` and a digit), so there is only one way to match. */
  function MatchCueLine(s: string): (r: Option<(CueLine, string)>)
    ensures r.Some? ==> WellFormedCue(r.value.0) && s == CueLineText(r.value.0) + r.value.1
  {
    var (t1, r1) :- MatchTimestamp(s);
    var (g1, r2) :- MatchSpaces(r1);
    var r3 :- MatchLiteral(r2, "-->");
    var (g2, r4) :- MatchSpaces(r3);
    var (t2, r5) :- MatchTimestamp(r4);
    var r6 :- MatchLiteral(r5, "\n");
    var c := CueLine(t1, g1, g2, t2);
    CueLineTextThen(c, r6);
    Some((c, r6))
  }

  lemma CueLineTextThen(c: CueLine, rest: string)
    ensures CueLineText(c) + rest == c.start + (c.gapBefore + ("-->" + (c.gapAfter + (c.end + ("\n" + rest)))))
  {
  }

  lemma MatchCueLineComplete(c: CueLine, rest: string)
    requires WellFormedCue(c)
    ensures MatchCueLine(CueLineText(c) + rest) == Some((c, rest))
  {
    var r5 := "\n" + rest;
    var r4 := c.end + r5;
    var r3 := c.gapAfter + r4;
    var r2 := "-->" + r3;
    var r1 := c.gapBefore + r2;
    CueLineTextThen(c, rest);
    MatchTimestampComplete(c.start, r1);
    MatchSpacesComplete(c.gapBefore, r2);
    MatchLiteralComplete("-->", r3);
    MatchSpacesComplete(c.gapAfter, r4);
    MatchTimestampComplete(c.end, r5);
    MatchLiteralComplete("\n", rest);
  }

  /** Where no cue line starts, the scan moves on by one character. */
  lemma SkipNonCue(t: string, more: string, speaker: string)
    requires |t| > 0 && MatchCueLine(t + more).None?
    ensures FindSpeakerCues(t + more, speaker) == FindSpeakerCues(t[1..] + more, speaker)
  {
    assert (t + more)[1..] == t[1..] + more;
  }

  /** A cue cannot start on a character other than a digit. */
  lemma NoCueWithoutDigit(s: string)
    requires |s| == 0 || !IsDigit(s[0])
    ensures MatchCueLine(s).None?
  {
  }

  /** The pattern of `get_timestamps_for_speaker_timestamps`: a cue line, then the
      speaker's name (escaped, so taken literally) and `:`. */
  function MatchSpeakerCue(s: string, speaker: string): (r: Option<(CueLine, string)>)
    ensures r.Some? ==> WellFormedCue(r.value.0) && s == CueLineText(r.value.0) + (speaker + ":" + r.value.1)
    ensures r.Some? ==> |r.value.1| < |s|
  {
    var (c, r1) :- MatchCueLine(s);
    var r2 :- MatchLiteral(r1, speaker + ":");
    Some((c, r2))
  }

  /** `re.findall` with that pattern. */
  function FindSpeakerCues(s: string, speaker: string): (cs: seq<CueLine>)
    ensures AllWellFormedCues(cs)
    decreases |s|
  {
    if |s| == 0 then []
    else
      var m := MatchSpeakerCue(s, speaker);
      if m.Some? then
        var tail := FindSpeakerCues(m.value.1, speaker);
        WellFormedCuesCons(m.value.0, tail);
        [m.value.0] + tail
      else FindSpeakerCues(s[1..], speaker)
  }

  predicate AllWellFormedCues(cs: seq<CueLine>) {
    forall i :: 0 <= i < |cs| ==> WellFormedCue(cs[i])
  }

  lemma WellFormedCuesCons(c: CueLine, tail: seq<CueLine>)
    requires WellFormedCue(c) && AllWellFormedCues(tail)
    ensures AllWellFormedCues([c] + tail)
  {
    assert forall i :: 1 <= i < |tail| + 1 ==> ([c] + tail)[i] == tail[i - 1];
  }

  /** Python's `IndexError` from `matches[0]` when nothing matched. */
  datatype ExtractError = IndexError

  /** `get_timestamps_for_speaker_timestamps(speaker, file)` on the file's text:
      the first match's start, the last match's end, and every match as a
      `(start, end)` pair in text order. */
  function SpeakerTimestamps(text: string, speaker: string): (r: Result<(string, string, seq<(string, string)>), ExtractError>)
    ensures r.Failure? <==> FindSpeakerCues(text, speaker) == []
    ensures r.Success? ==>
              var cs := FindSpeakerCues(text, speaker);
              && r.value.0 == cs[0].start
              && r.value.1 == cs[|cs| - 1].end
              && |r.value.2| == |cs|
              && (forall i :: 0 <= i < |cs| ==> r.value.2[i] == (cs[i].start, cs[i].end))
  {
    var cs := FindSpeakerCues(text, speaker);
    if |cs| == 0 then Failure(IndexError)
    else Success((cs[0].start, cs[|cs| - 1].end, CueTimes(cs)))
  }

  /** The `(start, end)` pair of every cue. */
  function CueTimes(cs: seq<CueLine>): (ps: seq<(string, string)>)
    ensures |ps| == |cs|
    ensures forall i :: 0 <= i < |cs| ==> ps[i] == (cs[i].start, cs[i].end)
  {
    seq(|cs|, i requires 0 <= i < |cs| => (cs[i].start, cs[i].end))
  }

  /** `(.+?):` at the head of `s`: the shortest non-empty run of characters other
      than a line break that is followed by `:`. */
  function MatchLazyName(s: string): (r: Option<(string, string)>)
    ensures r.Some? ==> && |r.value.0| > 0 && s == r.value.0 + (":" + r.value.1)
                        && '\n' !in r.value.0 && ':' !in r.value.0[1..]
  {
    if |s| == 0 || s[0] == '\n' then None
    else
      match FirstColonFrom(s, 1)
      case None => None
      case Some(k) =>
        assert s == s[..k] + (":" + s[k + 1..]);
        assert s[..k][1..] == s[1..k];
        Some((s[..k], s[k + 1..]))
  }

  /** The first `:` at or after `k`, when no line break comes before it and
      `s[1..k]` holds neither a line break nor a `:`. */
  function FirstColonFrom(s: string, k: nat): (r: Option<nat>)
    requires 1 <= k <= |s|
    requires '\n' !in s[..k] && ':' !in s[1..k]
    ensures r.Some? ==> && k <= r.value < |s| && s[r.value] == ':'
                        && '\n' !in s[..r.value] && ':' !in s[1..r.value]
    ensures r.None? ==> forall j :: k <= j < |s| && s[j] == ':' ==> '\n' in s[k..j]
    decreases |s| - k
  {
    if k == |s| then None
    else if s[k] == '\n' then
      assert forall j :: k < j <= |s| ==> s[k] in s[k..j];
      None
    else if s[k] == ':' then Some(k)
    else
      assert s[..k + 1] == s[..k] + [s[k]];
      assert s[1..k + 1] == s[1..k] + [s[k]];
      var r := FirstColonFrom(s, k + 1);
      assert forall j :: k + 1 <= j <= |s| ==> s[k + 1..j] <= s[k..j][1..];
      r
  }

  lemma MatchLazyNameComplete(name: string, rest: string)
    requires |name| > 0 && '\n' !in name && ':' !in name[1..]
    ensures MatchLazyName(name + (":" + rest)) == Some((name, rest))
  {
    var s := name + (":" + rest);
    assert s[..1] == name[..1];
    assert s[1..|name|] == name[1..];
    var k := |name|;
    match FirstColonFrom(s, 1)
    case None =>
      assert false;
    case Some(j) =>
      assert forall i :: 1 <= i < k ==> s[i] == name[1..][i - 1];
      assert forall i :: 1 <= i < j ==> s[1..j][i - 1] == s[i];
      assert j == k;
      assert s[k + 1..] == rest;
  }

  /** `get_timestamps_for_speaker(file)`: the pattern with a lazy name in place of
      the speaker. */
  function MatchNamedCue(s: string): (r: Option<(CueLine, string, string)>)
    ensures r.Some? ==> && WellFormedCue(r.value.0) && |r.value.1| > 0
                        && s == CueLineText(r.value.0) + (r.value.1 + (":" + r.value.2))
    ensures r.Some? ==> |r.value.2| < |s|
  {
    var (c, r1) :- MatchCueLine(s);
    var (name, r2) :- MatchLazyName(r1);
    Some((c, name, r2))
  }

  /** `re.findall` with that pattern: `(start, end, name)` per match. */
  function FindNamedCues(s: string): (ms: seq<(string, string, string)>)
    ensures AllTimestamps(ms)
    decreases |s|
  {
    if |s| == 0 then []
    else
      var m := MatchNamedCue(s);
      if m.Some? then
        var tail := FindNamedCues(m.value.2);
        TimestampsCons((m.value.0.start, m.value.0.end, m.value.1), tail);
        [(m.value.0.start, m.value.0.end, m.value.1)] + tail
      else FindNamedCues(s[1..])
  }

  lemma TimestampsCons(x: (string, string, string), tail: seq<(string, string, string)>)
    requires IsTimestamp(x.0) && IsTimestamp(x.1) && AllTimestamps(tail)
    ensures AllTimestamps([x] + tail)
  {
    assert forall i :: 1 <= i < |tail| + 1 ==> ([x] + tail)[i] == tail[i - 1];
  }

  /** `[A-Za-z\s]`: the characters of a speaker name in `get_speakers_names`. */
  predicate IsNameChar(c: char) {
    'A' <= c <= 'Z' || 'a' <= c <= 'z' || IsSpace(c)
  }

  /** `^([A-Za-z\s]+): ` at the head of `s`, which must be the start of a line
      (`re.MULTILINE`). The run is greedy and `:` is not in the class, so the
      pattern matches only if the longest run is followed by `: `. */
  function MatchNameLine(s: string): (r: Option<(string, string)>)
    ensures r.Some? ==> && |r.value.0| > 0 && (forall i :: 0 <= i < |r.value.0| ==> IsNameChar(r.value.0[i]))
                        && s == r.value.0 + (": " + r.value.1)
  {
    var n := Span(s, IsNameChar);
    if n == 0 then None
    else
      var rest :- MatchLiteral(s[n..], ": ");
      assert s == s[..n] + s[n..];
      Some((s[..n], rest))
  }

  lemma MatchNameLineComplete(name: string, rest: string)
    requires |name| > 0 && forall i :: 0 <= i < |name| ==> IsNameChar(name[i])
    ensures MatchNameLine(name + (": " + rest)) == Some((name, rest))
  {
    SpanOfConcat(name, ": " + rest, IsNameChar);
    var s := name + (": " + rest);
    assert s[..|name|] == name && s[|name|..] == ": " + rest;
    MatchLiteralComplete(": ", rest);
  }

  /** `re.findall` of the name pattern; `atLineStart` says whether the head of
      `s` is the start of a line. */
  function FindNames(s: string, atLineStart: bool): (names: seq<string>)
    ensures forall i :: 0 <= i < |names| ==> |names[i]| > 0
    decreases |s|
  {
    if |s| == 0 then []
    else if atLineStart && MatchNameLine(s).Some? then
      var (name, rest) := MatchNameLine(s).value;
      [name] + FindNames(rest, false)
    else FindNames(s[1..], s[0] == '\n')
  }

  /** `get_speakers_names` before the radio button is built: the distinct names
      (the order of `list(set(...))` is unspecified, so this is a set). */
  function SpeakerNames(text: string): (names: set<string>)
    ensures forall n :: n in names ==> n in FindNames(text, true)
    ensures forall i :: 0 <= i < |FindNames(text, true)| ==> FindNames(text, true)[i] in names
  {
    set n | n in FindNames(text, true)
  }

  /** `str.split(sep)`: the pieces between the separators, always at least one. */
  function Split(s: string, sep: char): (parts: seq<string>)
    ensures |parts| > 0
    ensures forall i :: 0 <= i < |parts| ==> sep !in parts[i]
  {
    if |s| == 0 then [""]
    else
      var rest := Split(s[1..], sep);
      if s[0] == sep then [""] + rest else [[s[0]] + rest[0]] + rest[1..]
  }

  /** The pieces joined back with the separator. */
  function JoinWith(parts: seq<string>, sep: char): string
    requires |parts| > 0
  {
    if |parts| == 1 then parts[0] else parts[0] + [sep] + JoinWith(parts[1..], sep)
  }

  /** Splitting loses nothing: joining the pieces gives the text back. */
  lemma {:induction false} SplitJoin(s: string, sep: char)
    ensures JoinWith(Split(s, sep), sep) == s
  {
    if |s| > 0 {
      SplitJoin(s[1..], sep);
      var rest := Split(s[1..], sep);
      if s[0] == sep {
        assert ([""] + rest)[1..] == rest;
        assert s == [sep] + s[1..];
      } else {
        var parts := [[s[0]] + rest[0]] + rest[1..];
        if |rest| == 1 {
          assert s == [s[0]] + s[1..];
        } else {
          assert parts[1..] == rest[1..];
          assert s == [s[0]] + s[1..];
        }
      }
    }
  }

  /** A piece without the separator, then the separator, then the rest. */
  lemma {:induction false} SplitAfterPiece(a: string, b: string, sep: char)
    requires sep !in a
    ensures Split(a + [sep] + b, sep) == [a] + Split(b, sep)
  {
    if |a| == 0 {
      assert a + [sep] + b == [sep] + b;
      assert ([sep] + b)[1..] == b;
    } else {
      assert (a + [sep] + b)[1..] == a[1..] + [sep] + b;
      SplitAfterPiece(a[1..], b, sep);
      assert [a[0]] + a[1..] == a;
    }
  }

  lemma {:induction false} SplitWithoutSep(a: string, sep: char)
    requires sep !in a
    ensures Split(a, sep) == [a]
  {
    if |a| > 0 {
      SplitWithoutSep(a[1..], sep);
      assert [a[0]] + a[1..] == a;
    }
  }

  /** `float(p)` for the plain decimal forms `d+`, `d+.d*` and `.d+`; anything else
      is `None` (a `ValueError`). */
  function ParseFloat(p: string): (r: Option<real>)
    ensures r.Some? ==> 0.0 <= r.value
  {
    var n := Span(p, IsDigit);
    if n == |p| then
      if n == 0 then None else Some(DigitsValue(p) as real)
    else if p[n] != '.' then None
    else
      var frac := p[n + 1..];
      if !AllDigits(frac) || (n == 0 && |frac| == 0) then None
      else Some(DecimalValue(p[..n], frac))
  }

  /** `convert_to_seconds(timestamp)`: exactly three `:`-separated numbers (else
      the tuple unpacking or `float` raises, here `None`), combined as hours,
      minutes and seconds. */
  function ConvertToSeconds(timestamp: string): (r: Option<real>)
    ensures r.Some? ==> |Split(timestamp, ':')| == 3
  {
    var parts := Split(timestamp, ':');
    if |parts| != 3 then None
    else
      var hours :- ParseFloat(parts[0]);
      var minutes :- ParseFloat(parts[1]);
      var seconds :- ParseFloat(parts[2]);
      Some(hours * 3600.0 + minutes * 60.0 + seconds)
  }

  /** The value `HH:MM:SS.mmm` denotes. */
  function TimestampValue(t: string): real
    requires IsTimestamp(t)
  {
    DigitsValue(t[0..2]) as real * 3600.0 + DigitsValue(t[3..5]) as real * 60.0
      + DigitsValue(t[6..8]) as real + DigitsValue(t[9..12]) as real / 1000.0
  }

  /** `convert_to_seconds` of a well-formed timestamp is `h*3600 + m*60 + s`. */
  lemma ConvertTimestamp(t: string)
    requires IsTimestamp(t)
    ensures ConvertToSeconds(t) == Some(TimestampValue(t))
  {
    TimestampPieces(t);
    ParseFloatInteger(t[0..2]);
    ParseFloatInteger(t[3..5]);
    TimestampSeconds(t);
  }

  /** A timestamp splits at `:` into hours, minutes and seconds. */
  lemma TimestampPieces(t: string)
    requires IsTimestamp(t)
    ensures Split(t, ':') == [t[0..2], t[3..5], t[6..12]]
  {
    var hh, mm, ss := t[0..2], t[3..5], t[6..12];
    assert t == hh + [':'] + (mm + [':'] + ss);
    SplitAfterPiece(hh, mm + [':'] + ss, ':');
    SplitAfterPiece(mm, ss, ':');
    SplitWithoutSep(ss, ':');
  }

  /** The seconds piece reads as seconds plus thousandths. */
  lemma TimestampSeconds(t: string)
    requires IsTimestamp(t)
    ensures ParseFloat(t[6..12]) == Some(DigitsValue(t[6..8]) as real + DigitsValue(t[9..12]) as real / 1000.0)
  {
    var sec, ms := t[6..8], t[9..12];
    assert AllDigits(sec) && AllDigits(ms);
    assert t[6..12] == sec + "." + ms;
    ParseFloatDecimal(sec, ms);
    MillisValue(sec, ms);
  }

  /** Three digits after the point are thousandths. */
  lemma MillisValue(sec: string, ms: string)
    requires AllDigits(sec) && AllDigits(ms) && |ms| == 3
    ensures DecimalValue(sec, ms) == DigitsValue(sec) as real + DigitsValue(ms) as real / 1000.0
  {
    assert Pow10(|ms|) == 1000 by {
      assert Pow10(1) == 10 && Pow10(2) == 100;
    }
  }

  /** `float` reads back a plain decimal exactly. */
  lemma ParseFloatDecimal(intPart: string, fracPart: string)
    requires AllDigits(intPart) && AllDigits(fracPart) && (|intPart| > 0 || |fracPart| > 0)
    ensures ParseFloat(intPart + "." + fracPart) == Some(DecimalValue(intPart, fracPart))
  {
    var p := intPart + "." + fracPart;
    assert p == intPart + ("." + fracPart);
    SpanOfConcat(intPart, "." + fracPart, IsDigit);
    assert p[..|intPart|] == intPart && p[|intPart| + 1..] == fracPart;
  }

  lemma ParseFloatInteger(ds: string)
    requires |ds| > 0 && AllDigits(ds)
    ensures ParseFloat(ds) == Some(DigitsValue(ds) as real)
  {
    SpanOfConcat(ds, "", IsDigit);
    assert ds + "" == ds;
  }

  /** One element of the comprehension: the midpoint of the interval in seconds,
      with its speaker, or `None` when a timestamp does not convert. */
  function IntervalMidpoint(interval: (string, string, string)): (r: Option<(real, string)>)
    ensures r.Some? <==> ConvertToSeconds(interval.0).Some? && ConvertToSeconds(interval.1).Some?
    ensures r.Some? ==> r.value == ((ConvertToSeconds(interval.0).value + ConvertToSeconds(interval.1).value) / 2.0, interval.2)
  {
    var start :- ConvertToSeconds(interval.0);
    var end :- ConvertToSeconds(interval.1);
    Some(((start + end) / 2.0, interval.2))
  }

  /** `convert_list_of_timestamps_to_seconds`: each `(start, end, speaker)` becomes
      `[midpoint in seconds, speaker]`, in order; any conversion failure fails
      the whole list (the exception propagates). */
  function ConvertListOfTimestampsToSeconds(intervals: seq<(string, string, string)>): (r: Option<seq<(real, string)>>)
    ensures r.Some? <==> forall i :: 0 <= i < |intervals| ==> IntervalMidpoint(intervals[i]).Some?
    ensures r.Some? ==> |r.value| == |intervals|
    ensures r.Some? ==> forall i :: 0 <= i < |intervals| ==> r.value[i] == IntervalMidpoint(intervals[i]).value
  {
    if |intervals| == 0 then Some([])
    else
      var rest := ConvertListOfTimestampsToSeconds(intervals[1..]);
      var first := IntervalMidpoint(intervals[0]);
      if first.None? then None
      else if rest.None? then
        var j :| 0 <= j < |intervals[1..]| && IntervalMidpoint(intervals[1..][j]).None?;
        assert intervals[1..][j] == intervals[j + 1];
        None
      else
        Some([first.value] + rest.value)
  }

  predicate AllTimestamps(intervals: seq<(string, string, string)>) {
    forall i :: 0 <= i < |intervals| ==> IsTimestamp(intervals[i].0) && IsTimestamp(intervals[i].1)
  }

  /** The midpoints, computed from the values the timestamps denote. */
  function Midpoints(intervals: seq<(string, string, string)>): (ms: seq<(real, string)>)
    requires AllTimestamps(intervals)
    ensures |ms| == |intervals|
  {
    seq(|intervals|, i requires 0 <= i < |intervals| =>
      ((TimestampValue(intervals[i].0) + TimestampValue(intervals[i].1)) / 2.0, intervals[i].2))
  }

  lemma MidpointOfTimestamps(interval: (string, string, string))
    requires IsTimestamp(interval.0) && IsTimestamp(interval.1)
    ensures IntervalMidpoint(interval) == Some(((TimestampValue(interval.0) + TimestampValue(interval.1)) / 2.0, interval.2))
  {
    ConvertTimestamp(interval.0);
    ConvertTimestamp(interval.1);
  }

  /** Well-formed timestamps always convert, to the midpoints of their values. */
  lemma ConvertTimestampIntervals(intervals: seq<(string, string, string)>)
    requires AllTimestamps(intervals)
    ensures ConvertListOfTimestampsToSeconds(intervals) == Some(Midpoints(intervals))
  {
    var ms := Midpoints(intervals);
    forall i | 0 <= i < |intervals|
      ensures IntervalMidpoint(intervals[i]) == Some(ms[i])
    {
      MidpointOfTimestamps(intervals[i]);
    }
    var r := ConvertListOfTimestampsToSeconds(intervals);
    assert r.Some?;
    assert forall i :: 0 <= i < |ms| ==> r.value[i] == ms[i];
    assert r.value == ms;
  }

  /** Every match of `get_timestamps_for_speaker` converts: its midpoints are the
      means of the two timestamps' values, one per match, in order. */
  lemma NamedCuesConvert(text: string)
    ensures AllTimestamps(FindNamedCues(text))
    ensures ConvertListOfTimestampsToSeconds(FindNamedCues(text)) == Some(Midpoints(FindNamedCues(text)))
  {
    ConvertTimestampIntervals(FindNamedCues(text));
  }

  // Zoom transcripts as written by Zoom: each block a cue line with single
  // spaces around the arrow, a `Name: utterance` line and an empty line.

  datatype ZoomBlock = ZoomBlock(start: string, end: string, name: string, line: string)

  predicate IsLetter(c: char) { 'A' <= c <= 'Z' || 'a' <= c <= 'z' }

  /** A display name: letters and spaces, starting with a letter. */
  predicate ZoomName(n: string) {
    |n| > 0 && IsLetter(n[0]) && forall i :: 0 <= i < |n| ==> IsLetter(n[i]) || n[i] == ' '
  }

  /** What the lemmas below need of a block: well-formed timestamps, a display
      name, and an utterance on one line without digits. */
  predicate WellFormedBlock(b: ZoomBlock) {
    && IsTimestamp(b.start) && IsTimestamp(b.end) && ZoomName(b.name)
    && forall i :: 0 <= i < |b.line| ==> !IsDigit(b.line[i]) && b.line[i] != '\n'
  }

  function ZoomCue(b: ZoomBlock): CueLine {
    CueLine(b.start, " ", " ", b.end)
  }

  function BlockText(b: ZoomBlock): string {
    CueLineText(ZoomCue(b)) + (b.name + (": " + (b.line + "\n\n")))
  }

  function ZoomText(blocks: seq<ZoomBlock>): string {
    Join(blocks, BlockText)
  }

  /** The block followed by more text, piece by piece. */
  lemma BlockTextThen(b: ZoomBlock, more: string)
    ensures BlockText(b) + more
         == b.start + (" --> " + (b.end + ("\n" + (b.name + (": " + (b.line + ("\n\n" + more)))))))
    ensures BlockText(b) + more == CueLineText(ZoomCue(b)) + (b.name + (":" + (" " + (b.line + ("\n\n" + more)))))
  {
  }

  predicate NoDigit(t: string) {
    forall i :: 0 <= i < |t| ==> !IsDigit(t[i])
  }

  /** Text without digits holds no cue. */
  lemma {:induction false} NoDigitNoSpeakerCue(t: string, more: string, speaker: string)
    requires NoDigit(t)
    ensures FindSpeakerCues(t + more, speaker) == FindSpeakerCues(more, speaker)
  {
    if |t| > 0 {
      assert (t + more)[0] == t[0];
      NoCueWithoutDigit(t + more);
      assert (t + more)[1..] == t[1..] + more;
      NoDigitNoSpeakerCue(t[1..], more, speaker);
    } else {
      assert t + more == more;
    }
  }

  lemma {:induction false} NoDigitNoNamedCue(t: string, more: string)
    requires NoDigit(t)
    ensures FindNamedCues(t + more) == FindNamedCues(more)
  {
    if |t| > 0 {
      assert (t + more)[0] == t[0];
      NoCueWithoutDigit(t + more);
      assert (t + more)[1..] == t[1..] + more;
      NoDigitNoNamedCue(t[1..], more);
    } else {
      assert t + more == more;
    }
  }

  lemma BlockTail(b: ZoomBlock, more: string)
    requires WellFormedBlock(b)
    ensures NoDigit(" " + (b.line + "\n\n"))
    ensures " " + (b.line + ("\n\n" + more)) == (" " + (b.line + "\n\n")) + more
  {
  }

  /** A block gives one match of `get_timestamps_for_speaker`: its times and
      its name. */
  lemma NamedCueOfBlock(b: ZoomBlock, more: string)
    requires WellFormedBlock(b)
    ensures FindNamedCues(BlockText(b) + more) == [(b.start, b.end, b.name)] + FindNamedCues(more)
  {
    var tail := " " + (b.line + ("\n\n" + more));
    var s := BlockText(b) + more;
    NamedCueMatch(b, more);
    assert FindNamedCues(s) == [(b.start, b.end, b.name)] + FindNamedCues(tail);
    assert FindNamedCues(tail) == FindNamedCues(more) by {
      BlockTail(b, more);
      NoDigitNoNamedCue(" " + (b.line + "\n\n"), more);
    }
  }

  /** The lazy name of a block's match is the block's name. */
  lemma NamedCueMatch(b: ZoomBlock, more: string)
    requires WellFormedBlock(b)
    ensures MatchNamedCue(BlockText(b) + more) == Some((ZoomCue(b), b.name, " " + (b.line + ("\n\n" + more))))
  {
    var tail := " " + (b.line + ("\n\n" + more));
    BlockTextThen(b, more);
    MatchCueLineComplete(ZoomCue(b), b.name + (":" + tail));
    NameWithoutColon(b.name);
    MatchLazyNameComplete(b.name, tail);
  }

  lemma NameWithoutColon(name: string)
    requires ZoomName(name)
    ensures ':' !in name[1..] && '\n' !in name
  {
    assert forall i :: 1 <= i < |name| ==> name[1..][i - 1] == name[i];
  }

  /** `get_timestamps_for_speaker` on a Zoom transcript: one `(start, end, name)`
      per block, in order. */
  lemma {:induction false} NamedCuesOfZoom(blocks: seq<ZoomBlock>)
    requires forall i :: 0 <= i < |blocks| ==> WellFormedBlock(blocks[i])
    ensures FindNamedCues(ZoomText(blocks)) == seq(|blocks|, i requires 0 <= i < |blocks| => (blocks[i].start, blocks[i].end, blocks[i].name))
  {
    if |blocks| == 0 {
      assert ZoomText(blocks) == "";
    } else {
      var rest := blocks[1..];
      var head := (blocks[0].start, blocks[0].end, blocks[0].name);
      calc {
        FindNamedCues(ZoomText(blocks));
        { JoinFirst(blocks, BlockText); }
        FindNamedCues(BlockText(blocks[0]) + ZoomText(rest));
        { NamedCueOfBlock(blocks[0], ZoomText(rest)); }
        [head] + FindNamedCues(ZoomText(rest));
        { assert forall i :: 0 <= i < |rest| ==> rest[i] == blocks[i + 1];
          NamedCuesOfZoom(rest); }
        [head] + seq(|rest|, i requires 0 <= i < |rest| => (rest[i].start, rest[i].end, rest[i].name));
      }
    }
  }

  /** No position strictly inside a timestamp starts another timestamp, when the
      timestamp is followed by a character that is neither a digit nor `:`. */
  lemma NoTimestampInside(ts: string, more: string, k: nat)
    requires IsTimestamp(ts) && 1 <= k < 12
    requires |more| > 0 && !IsDigit(more[0]) && more[0] != ':'
    ensures MatchTimestamp(ts[k..] + more).None?
  {
    var w := ts[k..] + more;
    assert forall i :: 0 <= i < 12 - k ==> w[i] == ts[k + i];
    assert w[12 - k] == more[0];
  }

  lemma {:induction false} TimestampInteriorFrom(ts: string, more: string, k: nat, speaker: string)
    requires IsTimestamp(ts) && 1 <= k <= 12
    requires |more| > 0 && !IsDigit(more[0]) && more[0] != ':'
    ensures FindSpeakerCues(ts[k..] + more, speaker) == FindSpeakerCues(more, speaker)
    decreases 12 - k
  {
    if k == 12 {
      assert ts[k..] + more == more;
    } else {
      NoTimestampInside(ts, more, k);
      assert (ts[k..] + more)[1..] == ts[k + 1..] + more;
      TimestampInteriorFrom(ts, more, k + 1, speaker);
    }
  }

  /** A name that differs from the speaker's, with no `:` in either, does not
      start with the speaker's name and `:`. */
  lemma NameMismatch(name: string, speaker: string, tail: string)
    requires ':' !in name && ':' !in speaker && name != speaker
    ensures !StartsWith(name + (":" + tail), speaker + ":")
  {
    var s, p := name + (":" + tail), speaker + ":";
    if |speaker| < |name| {
      assert s[|speaker|] == name[|speaker|];
    } else if |speaker| > |name| {
      assert s[|name|] == ':' && p[|name|] == speaker[|name|];
    } else {
      assert s[..|name|] == name && p[..|name|] == speaker;
    }
  }

  /** The cue of a block is the speaker's exactly when the block's name is the
      speaker's name. */
  lemma {:induction false} SpeakerCueOfBlock(b: ZoomBlock, more: string, speaker: string)
    requires WellFormedBlock(b) && ':' !in speaker
    ensures FindSpeakerCues(BlockText(b) + more, speaker)
         == (if b.name == speaker then [ZoomCue(b)] else []) + FindSpeakerCues(more, speaker)
  {
    if b.name == speaker {
      OwnBlockCue(b, more, speaker);
    } else {
      OtherBlockNoMatch(b, more, speaker);
      SkipOtherBlock(b, more, speaker);
    }
  }

  /** A block under the speaker's name yields its cue, and its name line none. */
  lemma OwnBlockCue(b: ZoomBlock, more: string, speaker: string)
    requires WellFormedBlock(b) && b.name == speaker
    ensures FindSpeakerCues(BlockText(b) + more, speaker) == [ZoomCue(b)] + FindSpeakerCues(more, speaker)
  {
    var rest := " " + (b.line + "\n\n");
    OwnBlockMatch(b, more, speaker);
    BlockTail(b, more);
    NoDigitNoSpeakerCue(rest, more, speaker);
  }

  lemma OwnBlockMatch(b: ZoomBlock, more: string, speaker: string)
    requires WellFormedBlock(b) && b.name == speaker
    ensures MatchSpeakerCue(BlockText(b) + more, speaker) == Some((ZoomCue(b), " " + (b.line + ("\n\n" + more))))
  {
    var tail := " " + (b.line + ("\n\n" + more));
    BlockTextThen(b, more);
    assert BlockText(b) + more == CueLineText(ZoomCue(b)) + ((speaker + ":") + tail);
    MatchCueLineComplete(ZoomCue(b), (speaker + ":") + tail);
    MatchLiteralComplete(speaker + ":", tail);
  }

  /** A block under another name does not match at its first character. */
  lemma OtherBlockNoMatch(b: ZoomBlock, more: string, speaker: string)
    requires WellFormedBlock(b) && ':' !in speaker && b.name != speaker
    ensures MatchSpeakerCue(BlockText(b) + more, speaker).None?
  {
    var tail := " " + (b.line + ("\n\n" + more));
    BlockTextThen(b, more);
    MatchCueLineComplete(ZoomCue(b), b.name + (":" + tail));
    assert ':' !in b.name;
    NameMismatch(b.name, speaker, tail);
  }

  lemma SkipOtherBlock(b: ZoomBlock, more: string, speaker: string)
    requires WellFormedBlock(b)
    requires MatchSpeakerCue(BlockText(b) + more, speaker).None?
    ensures FindSpeakerCues(BlockText(b) + more, speaker) == FindSpeakerCues(more, speaker)
  {
    BlockTextTail(b, more);
    SkipAfterBlockStart(b, more, speaker);
  }

  /** A block starts with a digit, and behind it comes the rest of its cue line. */
  lemma BlockTextTail(b: ZoomBlock, more: string)
    requires WellFormedBlock(b)
    ensures |BlockText(b) + more| > 0 && IsDigit((BlockText(b) + more)[0])
    ensures (BlockText(b) + more)[1..] == b.start[1..] + (" --> " + (b.end + AfterCue(b, more)))
  {
    BlockTextThen(b, more);
  }

  /** What follows a block's end timestamp: its name line, the blank line and
      the rest of the file. */
  function AfterCue(b: ZoomBlock, more: string): string {
    "\n" + (b.name + (": " + (b.line + ("\n\n" + more))))
  }

  /** After the first character of a block, no position up to the next block
      starts a cue. */
  lemma SkipAfterBlockStart(b: ZoomBlock, more: string, speaker: string)
    requires WellFormedBlock(b)
    ensures FindSpeakerCues(b.start[1..] + (" --> " + (b.end + AfterCue(b, more))), speaker) == FindSpeakerCues(more, speaker)
  {
    var y := AfterCue(b, more);
    var x1 := " --> " + (b.end + y);
    assert FindSpeakerCues(b.start[1..] + x1, speaker) == FindSpeakerCues(x1, speaker) by {
      TimestampInteriorFrom(b.start, x1, 1, speaker);
    }
    assert FindSpeakerCues(x1, speaker) == FindSpeakerCues(b.end + y, speaker) by {
      NoDigitNoSpeakerCue(" --> ", b.end + y, speaker);
    }
    SkipEndTimestamp(b, more, speaker);
    SkipNameLine(b, more, speaker);
  }

  lemma SkipNameLine(b: ZoomBlock, more: string, speaker: string)
    requires WellFormedBlock(b)
    ensures FindSpeakerCues(AfterCue(b, more), speaker) == FindSpeakerCues(more, speaker)
  {
    var rest := "\n" + (b.name + (": " + (b.line + "\n\n")));
    assert AfterCue(b, more) == rest + more;
    NameLineNoDigit(b);
    NoDigitNoSpeakerCue(rest, more, speaker);
  }

  lemma SkipEndTimestamp(b: ZoomBlock, more: string, speaker: string)
    requires WellFormedBlock(b)
    ensures FindSpeakerCues(b.end + AfterCue(b, more), speaker) == FindSpeakerCues(AfterCue(b, more), speaker)
  {
    var y := AfterCue(b, more);
    EndCueFails(b, more);
    SkipNonCue(b.end, y, speaker);
    assert y[0] == '\n';
    TimestampInteriorFrom(b.end, y, 1, speaker);
  }

  lemma NameLineNoDigit(b: ZoomBlock)
    requires WellFormedBlock(b)
    ensures NoDigit("\n" + (b.name + (": " + (b.line + "\n\n"))))
  {
    var t := "\n" + (b.name + (": " + (b.line + "\n\n")));
    var n := |b.name|;
    forall i | 0 <= i < |t|
      ensures !IsDigit(t[i])
    {
      if i == 0 {
      } else if i <= n {
        assert t[i] == b.name[i - 1];
      } else if i <= n + 2 {
        assert t[i] == ": "[i - n - 1];
      } else if i <= n + 2 + |b.line| {
        assert t[i] == b.line[i - n - 3];
      } else {
        assert t[i] == '\n';
      }
    }
  }

  lemma EndCueFails(b: ZoomBlock, more: string)
    requires WellFormedBlock(b)
    ensures MatchCueLine(b.end + AfterCue(b, more)).None?
  {
    var nameLine := b.name + (": " + (b.line + ("\n\n" + more)));
    assert AfterCue(b, more) == "\n" + nameLine;
    MatchTimestampComplete(b.end, "\n" + nameLine);
    MatchSpacesComplete("\n", nameLine);
  }

  /** The cues of the blocks whose name is the speaker's, in order. */
  function SpeakerBlocks(blocks: seq<ZoomBlock>, speaker: string): seq<CueLine>
  {
    if |blocks| == 0 then []
    else (if blocks[0].name == speaker then [ZoomCue(blocks[0])] else []) + SpeakerBlocks(blocks[1..], speaker)
  }

  /** `get_timestamps_for_speaker_timestamps`'s scan on a Zoom transcript finds
      exactly the speaker's blocks, in order. */
  lemma {:induction false} SpeakerCuesOfZoom(blocks: seq<ZoomBlock>, speaker: string)
    requires forall i :: 0 <= i < |blocks| ==> WellFormedBlock(blocks[i])
    requires ':' !in speaker
    ensures FindSpeakerCues(ZoomText(blocks), speaker) == SpeakerBlocks(blocks, speaker)
  {
    if |blocks| > 0 {
      JoinFirst(blocks, BlockText);
      SpeakerCueOfBlock(blocks[0], ZoomText(blocks[1..]), speaker);
      SpeakerCuesOfZoom(blocks[1..], speaker);
    }
  }

  /** The display names of the blocks, in order. */
  function BlockNames(blocks: seq<ZoomBlock>): seq<string>
  {
    if |blocks| == 0 then [] else [blocks[0].name] + BlockNames(blocks[1..])
  }

  /** Inside a line, no position is the start of a line, so nothing matches. */
  lemma {:induction false} NamesSkipWithinLine(t: string, more: string)
    requires forall i :: 0 <= i < |t| ==> t[i] != '\n'
    ensures FindNames(t + more, false) == FindNames(more, false)
  {
    if |t| > 0 {
      assert (t + more)[0] == t[0];
      assert (t + more)[1..] == t[1..] + more;
      NamesSkipWithinLine(t[1..], more);
    } else {
      assert t + more == more;
    }
  }

  /** A Zoom transcript is empty or starts with a digit. */
  lemma ZoomTextHead(blocks: seq<ZoomBlock>)
    requires forall i :: 0 <= i < |blocks| ==> WellFormedBlock(blocks[i])
    ensures ZoomText(blocks) == "" || IsDigit(ZoomText(blocks)[0])
  {
    if |blocks| > 0 {
      JoinFirst(blocks, BlockText);
      BlockTextThen(blocks[0], ZoomText(blocks[1..]));
    }
  }

  /** A line starting with a digit is not a name line. */
  lemma NoNameAtDigit(s: string)
    requires |s| > 0 && IsDigit(s[0])
    ensures FindNames(s, true) == FindNames(s[1..], false)
  {
    assert Span(s, IsNameChar) == 0;
  }

  /** The blank line after a block holds no name, and the next line starts
      afresh. */
  lemma NamesSkipBlankLine(more: string)
    requires more == "" || IsDigit(more[0])
    ensures FindNames("\n\n" + more, false) == FindNames(more, true)
  {
    var s := "\n" + more;
    assert ("\n\n" + more)[1..] == s;
    SpanOfConcat("\n", more, IsNameChar);
    assert s[1..] == more;
    assert MatchLiteral(more, ": ").None?;
    assert MatchNameLine(s).None?;
  }

  /** From the first character of a block to its name line. */
  lemma NamesSkipCueLine(b: ZoomBlock, more: string)
    requires WellFormedBlock(b)
    ensures FindNames(BlockText(b) + more, true) == FindNames(AfterCue(b, more), false)
  {
    var t := b.start[1..] + (" --> " + b.end);
    var y := AfterCue(b, more);
    calc {
      FindNames(BlockText(b) + more, true);
      { BlockTextTail(b, more);
        NoNameAtDigit(BlockText(b) + more); }
      FindNames(b.start[1..] + (" --> " + (b.end + y)), false);
      { assert b.start[1..] + (" --> " + (b.end + y)) == t + y; }
      FindNames(t + y, false);
      { CueInteriorNoBreak(b);
        NamesSkipWithinLine(t, y); }
      FindNames(y, false);
    }
  }

  /** The cue line of a block, after its first character, holds no line break. */
  lemma CueInteriorNoBreak(b: ZoomBlock)
    requires WellFormedBlock(b)
    ensures forall i :: 0 <= i < |b.start[1..] + (" --> " + b.end)| ==> (b.start[1..] + (" --> " + b.end))[i] != '\n'
  {
    var t := b.start[1..] + (" --> " + b.end);
    forall i | 0 <= i < |t|
      ensures t[i] != '\n'
    {
      if i < 11 {
        assert t[i] == b.start[i + 1];
      } else if i < 16 {
        assert t[i] == " --> "[i - 11];
      } else {
        assert t[i] == b.end[i - 16];
      }
    }
  }

  /** The name line of a block yields its name, and the rest of the block
      nothing. */
  lemma NameLineOfBlock(b: ZoomBlock, more: string)
    requires WellFormedBlock(b)
    requires more == "" || IsDigit(more[0])
    ensures FindNames(AfterCue(b, more), false) == [b.name] + FindNames(more, true)
  {
    var x := b.name + (": " + (b.line + ("\n\n" + more)));
    assert AfterCue(b, more)[1..] == x;
    assert FindNames(AfterCue(b, more), false) == FindNames(x, true);
    MatchNameLineComplete(b.name, b.line + ("\n\n" + more));
    assert FindNames(x, true) == [b.name] + FindNames(b.line + ("\n\n" + more), false);
    NamesSkipWithinLine(b.line, "\n\n" + more);
    NamesSkipBlankLine(more);
  }

  /** `get_speakers_names`'s scan on a Zoom transcript finds the blocks' names,
      in order, one per block. */
  lemma {:induction false} NamesOfZoom(blocks: seq<ZoomBlock>)
    requires forall i :: 0 <= i < |blocks| ==> WellFormedBlock(blocks[i])
    ensures FindNames(ZoomText(blocks), true) == BlockNames(blocks)
  {
    if |blocks| > 0 {
      var more := ZoomText(blocks[1..]);
      JoinFirst(blocks, BlockText);
      ZoomTextHead(blocks[1..]);
      NamesSkipCueLine(blocks[0], more);
      NameLineOfBlock(blocks[0], more);
      NamesOfZoom(blocks[1..]);
    }
  }

  /** So the names offered for selection are exactly the names that speak in
      the transcript. */
  lemma SpeakerNamesOfZoom(blocks: seq<ZoomBlock>)
    requires forall i :: 0 <= i < |blocks| ==> WellFormedBlock(blocks[i])
    ensures SpeakerNames(ZoomText(blocks)) == set i | 0 <= i < |blocks| :: blocks[i].name
  {
    NamesOfZoom(blocks);
    BlockNamesIndexed(blocks);
  }

  lemma {:induction false} BlockNamesIndexed(blocks: seq<ZoomBlock>)
    ensures |BlockNames(blocks)| == |blocks|
    ensures forall i :: 0 <= i < |blocks| ==> BlockNames(blocks)[i] == blocks[i].name
  {
    if |blocks| > 0 {
      BlockNamesIndexed(blocks[1..]);
    }
  }
}
