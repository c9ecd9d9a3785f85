/** `convert_diar_string_to_list` (utils/utils.py): reads back the transcript that
    `diar_inference` writes. Every match of the header pattern
    `\[(\d+\.\d+) - (\d+\.\d+)\] \[([A-Z_0-9]+)\]`, found by `re.findall`'s
    left-to-right scan, becomes `[start + offset, end + offset, label]`. */
module TranscriptParser {
  import opened Wrappers
  import opened Text
  import AsrModel
  import Diarizer

  /** `[A-Z_0-9]`: the characters of a speaker label. */
  predicate IsLabelChar(c: char) {
    'A' <= c <= 'Z' || c == '_' || '0' <= c <= '9'
  }

  predicate ValidLabel(s: string) {
    |s| > 0 && forall i :: 0 <= i < |s| ==> IsLabelChar(s[i])
  }

  /** The three groups of one match, the two numbers split at their point. */
  datatype Header = Header(startInt: string, startFrac: string, endInt: string, endFrac: string, speaker: string)

  /** A number `\d+\.\d+`. */
  predicate IsNumber(intPart: string, fracPart: string) {
    |intPart| > 0 && AllDigits(intPart) && |fracPart| > 0 && AllDigits(fracPart)
  }

  /** What the pattern can match. */
  predicate WellFormed(h: Header) {
    IsNumber(h.startInt, h.startFrac) && IsNumber(h.endInt, h.endFrac) && ValidLabel(h.speaker)
  }

  /** `\d+\.\d+` as text. */
  function NumberText(intPart: string, fracPart: string): string {
    intPart + "." + fracPart
  }

  /** The text a match covers. */
  function HeaderText(h: Header): string {
    "[" + (NumberText(h.startInt, h.startFrac) + (" - " + (NumberText(h.endInt, h.endFrac) + ("] [" + (h.speaker + "]")))))
  }

  /** A match followed by more text, written piece by piece as the matcher
      consumes it. */
  lemma HeaderTextThen(h: Header, rest: string)
    ensures HeaderText(h) + rest
         == "[" + (NumberText(h.startInt, h.startFrac) + (" - " + (NumberText(h.endInt, h.endFrac) + ("] [" + (h.speaker + ("]" + rest))))))
  {
  }

  /** `\d+\.\d+` at the head of `s`; a greedy `\d+` followed by a non-digit has
      only one way to match, so no backtracking is needed. */
  function MatchNumber(s: string): (r: Option<(string, string, string)>)
    ensures r.Some? ==> IsNumber(r.value.0, r.value.1) && s == NumberText(r.value.0, r.value.1) + r.value.2
    ensures r.Some? ==> |r.value.2| == 0 || !IsDigit(r.value.2[0])
  {
    var a := Span(s, IsDigit);
    if a == 0 || a == |s| || s[a] != '.' then None
    else
      var t := s[a + 1..];
      var b := Span(t, IsDigit);
      if b == 0 then None
      else
        assert t == t[..b] + t[b..];
        assert s == s[..a] + "." + t;
        Some((s[..a], t[..b], t[b..]))
  }

  lemma MatchNumberComplete(intPart: string, fracPart: string, rest: string)
    requires IsNumber(intPart, fracPart)
    requires |rest| == 0 || !IsDigit(rest[0])
    ensures MatchNumber(NumberText(intPart, fracPart) + rest) == Some((intPart, fracPart, rest))
  {
    var s := NumberText(intPart, fracPart) + rest;
    assert s == intPart + ("." + fracPart + rest);
    SpanOfConcat(intPart, "." + fracPart + rest, IsDigit);
    assert s[|intPart| + 1..] == fracPart + rest;
    SpanOfConcat(fracPart, rest, IsDigit);
  }

  /** `[A-Z_0-9]+\]` at the head of `s`: the label and the text after the `]`. */
  function MatchLabel(s: string): (r: Option<(string, string)>)
    ensures r.Some? ==> ValidLabel(r.value.0) && s == r.value.0 + ("]" + r.value.1)
  {
    var n := Span(s, IsLabelChar);
    if n == 0 || n == |s| || s[n] != ']' then None
    else
      assert s == s[..n] + ("]" + s[n + 1..]);
      Some((s[..n], s[n + 1..]))
  }

  lemma MatchLabelComplete(speaker: string, rest: string)
    requires ValidLabel(speaker)
    ensures MatchLabel(speaker + ("]" + rest)) == Some((speaker, rest))
  {
    SpanOfConcat(speaker, "]" + rest, IsLabelChar);
    assert (speaker + ("]" + rest))[|speaker| + 1..] == rest;
  }

  /** The whole pattern at the head of `s`: the match and the text after it. */
  function MatchHeader(s: string): (r: Option<(Header, string)>)
    ensures r.Some? ==> WellFormed(r.value.0) && s == HeaderText(r.value.0) + r.value.1
    ensures r.Some? ==> |r.value.1| < |s|
  {
    var s1 :- MatchLiteral(s, "[");
    var (i1, f1, r1) :- MatchNumber(s1);
    var s2 :- MatchLiteral(r1, " - ");
    var (i2, f2, r2) :- MatchNumber(s2);
    var s3 :- MatchLiteral(r2, "] [");
    var (speaker, rest) :- MatchLabel(s3);
    var h := Header(i1, f1, i2, f2, speaker);
    HeaderTextThen(h, rest);
    Some((h, rest))
  }

  /** Every well-formed header is found at the head of any text that continues it. */
  lemma MatchHeaderComplete(h: Header, rest: string)
    requires WellFormed(h)
    ensures MatchHeader(HeaderText(h) + rest) == Some((h, rest))
  {
    var s3 := h.speaker + ("]" + rest);
    var r2 := "] [" + s3;
    var r1 := " - " + (NumberText(h.endInt, h.endFrac) + r2);
    var s1 := NumberText(h.startInt, h.startFrac) + r1;
    HeaderTextThen(h, rest);
    MatchLiteralComplete("[", s1);
    MatchNumberComplete(h.startInt, h.startFrac, r1);
    MatchLiteralComplete(" - ", NumberText(h.endInt, h.endFrac) + r2);
    MatchNumberComplete(h.endInt, h.endFrac, r2);
    MatchLiteralComplete("] [", s3);
    MatchLabelComplete(h.speaker, rest);
  }

  /** `re.findall`: try the pattern at each position from the left; after a
      match, go on after it. */
  function FindHeaders(s: string): (hs: seq<Header>)
    ensures AllWellFormed(hs)
    decreases |s|
  {
    if |s| == 0 then []
    else
      var m := MatchHeader(s);
      if m.Some? then
        var tail := FindHeaders(m.value.1);
        WellFormedCons(m.value.0, tail);
        [m.value.0] + tail
      else FindHeaders(s[1..])
  }

  predicate AllWellFormed(hs: seq<Header>) {
    forall i :: 0 <= i < |hs| ==> WellFormed(hs[i])
  }

  lemma WellFormedCons(h: Header, tail: seq<Header>)
    requires WellFormed(h) && AllWellFormed(tail)
    ensures AllWellFormed([h] + tail)
  {
    assert forall i :: 1 <= i < |tail| + 1 ==> ([h] + tail)[i] == tail[i - 1];
  }

  /** Text without an opening bracket holds no match. */
  lemma {:induction false} NoBracketNoMatch(s: string, rest: string)
    requires '[' !in s
    ensures FindHeaders(s + rest) == FindHeaders(rest)
  {
    if |s| > 0 {
      assert (s + rest)[0] == s[0];
      assert (s + rest)[1..] == s[1..] + rest;
      NoBracketNoMatch(s[1..], rest);
    } else {
      assert s + rest == rest;
    }
  }

  lemma FindHeadersAfterHeader(h: Header, rest: string)
    requires WellFormed(h)
    ensures FindHeaders(HeaderText(h) + rest) == [h] + FindHeaders(rest)
  {
    MatchHeaderComplete(h, rest);
  }

  /** One parsed entry: `[start, end, label]`. */
  datatype Interval = Interval(start: real, end: real, speaker: string)

  /** `float(group)` plus the offset. */
  function ToInterval(h: Header, offset: real): (iv: Interval)
    requires WellFormed(h)
    ensures iv.speaker == h.speaker
    ensures iv.start - offset == DecimalValue(h.startInt, h.startFrac)
    ensures iv.end - offset == DecimalValue(h.endInt, h.endFrac)
    ensures ValidLabel(iv.speaker) && offset <= iv.start && offset <= iv.end
  {
    Interval(DecimalValue(h.startInt, h.startFrac) + offset, DecimalValue(h.endInt, h.endFrac) + offset, h.speaker)
  }

  /** What `convert_diar_string_to_list` returns. */
  function ParseTranscript(text: string, offset: real): (ivs: seq<Interval>)
    ensures |ivs| == |FindHeaders(text)|
    ensures forall i :: 0 <= i < |ivs| ==>
              ValidLabel(ivs[i].speaker) && offset <= ivs[i].start && offset <= ivs[i].end
  {
    var hs := FindHeaders(text);
    var ivs := seq(|hs|, i requires 0 <= i < |hs| => ToInterval(hs[i], offset));
    assert forall i :: 0 <= i < |ivs| ==> ivs[i] == ToInterval(hs[i], offset);
    ivs
  }

  /** The loop over the matches, building `new_matches`. */
  method ConvertDiarStringToList(text: string, offset: real) returns (newMatches: seq<Interval>)
    ensures newMatches == ParseTranscript(text, offset)
  {
    var matches := FindHeaders(text);
    newMatches := [];
    for k := 0 to |matches|
      invariant |newMatches| == k
      invariant forall j :: 0 <= j < k ==> newMatches[j] == ToInterval(matches[j], offset)
    {
      var m := matches[k];
      var start, end := DecimalValue(m.startInt, m.startFrac), DecimalValue(m.endInt, m.endFrac);
      start, end := start + offset, end + offset;
      var entry := Interval(start, end, m.speaker);
      assert entry == ToInterval(m, offset);
      newMatches := newMatches + [entry];
    }
  }

  /** The offset only shifts the times: labels and count do not depend on it. */
  lemma OffsetShifts(text: string, offset: real)
    ensures var a, b := ParseTranscript(text, 0.0), ParseTranscript(text, offset);
            && |a| == |b|
            && forall i :: 0 <= i < |a| ==>
                 b[i] == Interval(a[i].start + offset, a[i].end + offset, a[i].speaker)
  {
  }

  /** Text in which no `[` is followed by a digit yields nothing and no error. */
  lemma NothingToParse(text: string, offset: real)
    requires forall i :: 0 <= i < |text| ==> !BracketDigitAt(text, i)
    ensures ParseTranscript(text, offset) == []
  {
    NoBracketDigitNoMatch(text);
  }

  /** No match covers a line break: the pattern holds none. */
  lemma HeaderNoBreak(h: Header)
    requires WellFormed(h)
    ensures '\n' !in HeaderText(h)
  {
    assert '\n' !in h.startInt && '\n' !in h.startFrac;
    assert '\n' !in h.endInt && '\n' !in h.endFrac;
    assert '\n' !in h.speaker;
  }

  /** A match at the head of text that goes on after a line break lies before
      the break: the pattern matches there exactly as on the text up to it. */
  lemma MatchBeforeBreak(t: string, more: string)
    ensures MatchHeader(t).Some? ==>
              MatchHeader(t + ("\n" + more)) == Some((MatchHeader(t).value.0, MatchHeader(t).value.1 + ("\n" + more)))
    ensures MatchHeader(t).None? ==> MatchHeader(t + ("\n" + more)).None?
  {
    if MatchHeader(t).Some? {
      MatchFoundBeforeBreak(t, MatchHeader(t).value.0, MatchHeader(t).value.1, more);
    } else {
      MatchNeedsNoBreak(t, more);
    }
  }

  lemma MatchFoundBeforeBreak(t: string, h: Header, rest: string, more: string)
    requires WellFormed(h) && t == HeaderText(h) + rest
    ensures MatchHeader(t + ("\n" + more)) == Some((h, rest + ("\n" + more)))
  {
    assert t + ("\n" + more) == HeaderText(h) + (rest + ("\n" + more));
    MatchHeaderComplete(h, rest + ("\n" + more));
  }

  lemma MatchNeedsNoBreak(t: string, more: string)
    ensures MatchHeader(t + ("\n" + more)).Some? ==> MatchHeader(t).Some?
  {
    var s := t + ("\n" + more);
    if MatchHeader(s).Some? {
      var h := MatchHeader(s).value.0;
      var ht := HeaderText(h);
      HeaderNoBreak(h);
      HeaderBeforeBreak(ht, t, more);
      MatchHeaderComplete(h, t[|ht|..]);
    }
  }

  /** Text without a line break that starts text, a line break and more starts
      the text before the break. */
  lemma HeaderBeforeBreak(ht: string, t: string, more: string)
    requires '\n' !in ht && StartsWith(t + ("\n" + more), ht)
    ensures |ht| <= |t| && t == ht + t[|ht|..]
  {
    var s := t + ("\n" + more);
    assert s[|t|] == '\n';
    assert t[..|ht|] == s[..|ht|];
  }

  /** `re.findall` does not look across a line break: the matches of text, a
      line break and more text are those of the text, then those of the rest. */
  lemma {:induction false} FindHeadersAcrossBreak(t: string, more: string)
    ensures FindHeaders(t + ("\n" + more)) == FindHeaders(t) + FindHeaders(more)
    decreases |t|
  {
    var s := t + ("\n" + more);
    if |t| == 0 {
      assert s == "\n" + more;
      NoBracketNoMatch("\n", more);
    } else {
      MatchBeforeBreak(t, more);
      var m := MatchHeader(t);
      if m.Some? {
        FindHeadersAcrossBreak(m.value.1, more);
      } else {
        assert s[1..] == t[1..] + ("\n" + more);
        FindHeadersAcrossBreak(t[1..], more);
      }
    }
  }

  /** A `[` directly followed by a digit, which every match starts with. */
  predicate BracketDigitAt(s: string, i: nat) {
    i + 1 < |s| && s[i] == '[' && IsDigit(s[i + 1])
  }

  /** Text in which no `[` is directly followed by a digit holds no match, even
      if it holds brackets, as a recognised `[Music]` does. */
  lemma {:induction false} NoBracketDigitNoMatch(s: string)
    requires forall i :: 0 <= i < |s| ==> !BracketDigitAt(s, i)
    ensures FindHeaders(s) == []
    decreases |s|
  {
    if |s| > 0 {
      MatchStartsBracketDigit(s);
      forall i | 0 <= i < |s[1..]|
        ensures !BracketDigitAt(s[1..], i)
      {
        assert !BracketDigitAt(s, i + 1);
      }
      NoBracketDigitNoMatch(s[1..]);
    }
  }

  lemma MatchStartsBracketDigit(s: string)
    ensures MatchHeader(s).Some? ==> BracketDigitAt(s, 0)
  {
    if MatchHeader(s).Some? {
      var h := MatchHeader(s).value.0;
      HeaderTextThen(h, MatchHeader(s).value.1);
      assert s[1] == h.startInt[0];
    }
  }

  /** The recogniser's `[Music]` holds no match. */
  lemma MusicHoldsNoHeader()
    ensures FindHeaders("[Music]") == []
  {
    var s := "[Music]";
    forall i | 0 <= i < |s|
      ensures !BracketDigitAt(s, i)
    {
    }
    NoBracketDigitNoMatch(s);
  }

  /** The header of a formatted transcript line. */
  function HeaderOf(l: AsrModel.TranscriptLine): Header
  {
    Header(NatDigits(l.startCs / 100), Frac2(l.startCs), NatDigits(l.endCs / 100), Frac2(l.endCs), l.speaker)
  }

  /** What the parser needs from a line to read back exactly that line: a label
      over `[A-Z_0-9]+`, and a recognised text that holds no match of its own. */
  predicate Parsable(l: AsrModel.TranscriptLine) {
    ValidLabel(l.speaker) && FindHeaders(l.text) == []
  }

  lemma FormatLineSplits(l: AsrModel.TranscriptLine)
    requires ValidLabel(l.speaker)
    ensures WellFormed(HeaderOf(l))
    ensures AsrModel.FormatLine(l) == HeaderText(HeaderOf(l)) + (" : " + l.text + "\n\n")
  {
  }

  /** A formatted line yields its own header, then the matches its recognised
      text holds, whatever follows it: the blank line ends every match. */
  lemma LineHeaders(l: AsrModel.TranscriptLine, more: string)
    requires ValidLabel(l.speaker)
    ensures FindHeaders(AsrModel.FormatLine(l) + more) == [HeaderOf(l)] + (FindHeaders(l.text) + FindHeaders(more))
  {
    FormatLineSplits(l);
    var said := " : " + l.text;
    assert AsrModel.FormatLine(l) + more == HeaderText(HeaderOf(l)) + (said + ("\n" + ("\n" + more)));
    FindHeadersAfterHeader(HeaderOf(l), said + ("\n" + ("\n" + more)));
    FindHeadersAcrossBreak(said, "\n" + more);
    NoBracketNoMatch(" : ", l.text);
    NoBracketNoMatch("\n", more);
  }

  /** A formatted line yields exactly its own header, whatever follows it. */
  lemma FindHeadersOfLine(l: AsrModel.TranscriptLine, more: string)
    requires Parsable(l)
    ensures FindHeaders(AsrModel.FormatLine(l) + more) == [HeaderOf(l)] + FindHeaders(more)
  {
    LineHeaders(l, more);
    assert [] + FindHeaders(more) == FindHeaders(more);
  }

  lemma FindHeadersOfFirstLine(lines: seq<AsrModel.TranscriptLine>)
    requires |lines| > 0 && Parsable(lines[0])
    ensures FindHeaders(AsrModel.FormatLines(lines)) == [HeaderOf(lines[0])] + FindHeaders(AsrModel.FormatLines(lines[1..]))
  {
    AsrModel.FormatLinesFirst(lines);
    FindHeadersOfLine(lines[0], AsrModel.FormatLines(lines[1..]));
  }

  /** The headers of the lines, in order. */
  function HeadersOf(lines: seq<AsrModel.TranscriptLine>): (hs: seq<Header>)
    ensures |hs| == |lines|
  {
    seq(|lines|, i requires 0 <= i < |lines| => HeaderOf(lines[i]))
  }

  lemma {:induction false} FindHeadersOfLines(lines: seq<AsrModel.TranscriptLine>)
    requires forall i :: 0 <= i < |lines| ==> Parsable(lines[i])
    ensures FindHeaders(AsrModel.FormatLines(lines)) == HeadersOf(lines)
  {
    if |lines| == 0 {
      assert AsrModel.FormatLines(lines) == "";
    } else {
      FindHeadersOfFirstLine(lines);
      ParsableTail(lines);
      FindHeadersOfLines(lines[1..]);
      HeadersOfCons(lines);
    }
  }

  lemma ParsableTail(lines: seq<AsrModel.TranscriptLine>)
    requires |lines| > 0 && forall i :: 0 <= i < |lines| ==> Parsable(lines[i])
    ensures forall i :: 0 <= i < |lines[1..]| ==> Parsable(lines[1..][i])
  {
    assert forall i :: 0 <= i < |lines[1..]| ==> lines[1..][i] == lines[i + 1];
  }

  lemma HeadersOfCons(lines: seq<AsrModel.TranscriptLine>)
    requires |lines| > 0
    ensures HeadersOf(lines) == [HeaderOf(lines[0])] + HeadersOf(lines[1..])
  {
    assert forall i :: 0 <= i < |lines| - 1 ==> HeadersOf(lines[1..])[i] == HeadersOf(lines)[i + 1];
  }

  /** The round trip: a transcript written by `diar_inference`, read back with
      offset 0, gives each line's two printed values and its label, in order. */
  lemma {:induction false} ParseFormattedTranscript(lines: seq<AsrModel.TranscriptLine>)
    requires forall i :: 0 <= i < |lines| ==> Parsable(lines[i])
    ensures var ivs := ParseTranscript(AsrModel.FormatLines(lines), 0.0);
            && |ivs| == |lines|
            && forall i :: 0 <= i < |lines| ==>
                 ivs[i] == Interval(lines[i].startCs as real / 100.0, lines[i].endCs as real / 100.0, lines[i].speaker)
  {
    FindHeadersOfLines(lines);
    forall i | 0 <= i < |lines|
      ensures ParseTranscript(AsrModel.FormatLines(lines), 0.0)[i]
           == Interval(lines[i].startCs as real / 100.0, lines[i].endCs as real / 100.0, lines[i].speaker)
    {
      Fixed2Value(lines[i].startCs);
      Fixed2Value(lines[i].endCs);
    }
  }

  /** Transcribing a diarization table and parsing the transcript back with
      offset 0 gives one entry per row, in order, with the row's label and its
      displayed times to within half a hundredth. */
  lemma TranscriptRowsParseBack(rows: seq<Diarizer.Row>, waveform: seq<AsrModel.Sample>, cfg: AsrModel.AsrConfig,
                                infer: AsrModel.Recogniser)
    requires forall i :: 0 <= i < |rows| ==> Parsable(AsrModel.LineFor(rows[i], waveform, cfg, infer))
    ensures var ivs := ParseTranscript(AsrModel.FormatLines(AsrModel.LinesFor(rows, waveform, cfg, infer)), 0.0);
            && |ivs| == |rows|
            && forall i :: 0 <= i < |rows| ==>
                 && ivs[i].speaker == rows[i].speaker
                 && AsrModel.DisplayTime(rows[i].startTime, cfg.timestampFormat) - 0.005 < ivs[i].start
                 && ivs[i].start <= AsrModel.DisplayTime(rows[i].startTime, cfg.timestampFormat) + 0.005
                 && AsrModel.DisplayTime(rows[i].endTime, cfg.timestampFormat) - 0.005 < ivs[i].end
                 && ivs[i].end <= AsrModel.DisplayTime(rows[i].endTime, cfg.timestampFormat) + 0.005
  {
    var lines := AsrModel.LinesFor(rows, waveform, cfg, infer);
    ParseFormattedTranscript(lines);
  }

  /** The example of the docstring: the line of `SPEAKER_02` at 199.34 to
      205.00 seconds, read with the offset 33.34, is `[232.68, 238.34,
      'SPEAKER_02']`. */
  lemma ParseExample(text: string)
    requires text == "[199.34 - 205.00] [SPEAKER_02]" + ExampleSaid()
    ensures ParseTranscript(text, 33.34) == [Interval(232.68, 238.34, "SPEAKER_02")]
  {
    var h := Header("199", "34", "205", "00", "SPEAKER_02");
    ExampleText(h);
    FindExample(h);
    ExampleValues();
  }

  /** The words said after the header of the example. */
  function ExampleSaid(): string {
    " :  Okay, thanks." + " I'll let the other panelists" + " ask some questions first." + " I'll get back to you again.\n\n"
  }

  lemma ExampleText(h: Header)
    requires h == Header("199", "34", "205", "00", "SPEAKER_02")
    ensures HeaderText(h) == "[199.34 - 205.00] [SPEAKER_02]"
  {
  }

  lemma FindExample(h: Header)
    requires h == Header("199", "34", "205", "00", "SPEAKER_02")
    ensures WellFormed(h) && FindHeaders(HeaderText(h) + ExampleSaid()) == [h]
  {
    assert ValidLabel(h.speaker);
    FindHeadersAfterHeader(h, ExampleSaid());
    SaidHasNoBracket();
    NoBracketNoMatch(ExampleSaid(), "");
    assert ExampleSaid() + "" == ExampleSaid();
  }

  lemma SaidHasNoBracket()
    ensures '[' !in ExampleSaid()
  {
    FirstPiecesHaveNoBracket();
    LastPiecesHaveNoBracket();
  }

  lemma FirstPiecesHaveNoBracket()
    ensures '[' !in " :  Okay, thanks." && '[' !in " I'll let the other panelists"
  {
  }

  lemma LastPiecesHaveNoBracket()
    ensures '[' !in " ask some questions first." && '[' !in " I'll get back to you again.\n\n"
  {
  }

  lemma ExampleValues()
    ensures DecimalValue("199", "34") == 199.34 && DecimalValue("205", "00") == 205.0
  {
    assert Pow10(2) == 100 by {
      assert Pow10(1) == 10;
    }
    ThreeDigitsValue('1', '9', '9');
    TwoDigitsValue('3', '4');
    ThreeDigitsValue('2', '0', '5');
    TwoDigitsValue('0', '0');
  }
}
