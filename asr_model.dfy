/** The segment transcriber of `ASRModelForInference`
    (asr_inference_service/model.py): the option normalisation of the
    constructor, and `diar_inference`, which diarizes a recording, cuts the
    waveform at every row of the diarization table, transcribes each piece and
    writes one line `[start - end] [SPEAKER] : text` per row.

    Loading the speech model, resampling and the transformers pipeline are
    external: the speech recogniser is the function parameter `infer`, the
    diarization pipeline's turns and the loaded waveform are parameters. */
module AsrModel {
  import opened Wrappers
  import opened Text
  import Diarizer

  type Seconds = Diarizer.Seconds

  /** One sample of the mono waveform. */
  type Sample = real

  /** The speech recogniser: `infer(waveform, input_sr)`. */
  type Recogniser = (seq<Sample>, nat) -> string

  /** What the constructor fixes once: the selected device, the timestamp display
      unit, the target sample rate and the thresholds handed to the diarizer. */
  datatype AsrConfig = AsrConfig(device: string, timestampFormat: string, targetSr: nat, diarizer: Diarizer.Config)

  /** The display unit: "minutes" and "seconds" are kept, anything else becomes
      "seconds". */
  function NormaliseTimestampFormat(format: string): (r: string)
    ensures r == "minutes" || r == "seconds"
    ensures format == "minutes" || format == "seconds" ==> r == format
    ensures format != "minutes" && format != "seconds" ==> r == "seconds"
  {
    if format == "minutes" || format == "seconds" then format else "seconds"
  }

  /** The constructor's option handling. */
  function NewAsrConfig(device: string, cudaAvailable: bool, sampleRate: nat, timestampFormat: string,
                        minSegmentLength: real, minSilenceLength: real): (cfg: AsrConfig)
    ensures cfg.device == "cuda" || cfg.device == "cpu"
    ensures device == "cuda" || device == "cpu" ==> cfg.device == device
    ensures device != "cuda" && device != "cpu" ==> (cfg.device == "cuda" <==> cudaAvailable)
    ensures cfg.timestampFormat == "minutes" || cfg.timestampFormat == "seconds"
    ensures timestampFormat == "minutes" ==> cfg.timestampFormat == "minutes"
    ensures timestampFormat != "minutes" ==> cfg.timestampFormat == "seconds"
    ensures cfg.targetSr == sampleRate
    ensures cfg.diarizer == Diarizer.Config(minSegmentLength, minSilenceLength)
  {
    AsrConfig(Diarizer.SelectDevice(device, cudaAvailable), NormaliseTimestampFormat(timestampFormat),
              sampleRate, Diarizer.Config(minSegmentLength, minSilenceLength))
  }

  /** `int(t * sr)`: the index of the sample at time `t` (truncation and floor
      agree on non-negative values). */
  function FrameIndex(t: Seconds, sr: nat): (k: nat)
    ensures k as real <= t * sr as real < k as real + 1.0
  {
    assert 0.0 <= t * sr as real;
    (t * sr as real).Floor
  }

  /** Python's `s[lo:hi]` for non-negative bounds: both bounds are clamped to the
      length, and the slice is empty when `lo` is not below `hi`. */
  function PySlice<T>(s: seq<T>, lo: nat, hi: nat): (r: seq<T>)
    ensures |r| == if lo < hi && lo < |s| then (if hi < |s| then hi else |s|) - lo else 0
    ensures forall k :: 0 <= k < |r| ==> r[k] == s[lo + k]
  {
    if lo >= |s| || lo >= hi then [] else s[lo..if hi < |s| then hi else |s|]
  }

  /** The piece of the waveform a row covers, at sample rate `sr`. */
  function SegmentAudio(waveform: seq<Sample>, row: Diarizer.Row, sr: nat): seq<Sample>
  {
    PySlice(waveform, FrameIndex(row.startTime, sr), FrameIndex(row.endTime, sr))
  }

  /** The value printed for a time: divided by 60 in "minutes" mode, unchanged
      otherwise. */
  function DisplayTime(t: Seconds, format: string): (d: Seconds)
    ensures format == "minutes" ==> d * 60.0 == t
    ensures format != "minutes" ==> d == t
  {
    if format == "minutes" then t / 60.0 else t
  }

  /** Hundredths nearest to `x`: the digits the format spec `.2f` prints. */
  function Centis(x: Seconds): (c: nat)
    ensures x * 100.0 - 0.5 < c as real <= x * 100.0 + 0.5
  {
    RoundHalfUp(x * 100.0)
  }

  /** One transcript line before it is rendered: the two printed values in
      hundredths, the speaker label and the recognised text. */
  datatype TranscriptLine = TranscriptLine(startCs: nat, endCs: nat, speaker: string, text: string)

  /** One transcript line: both times to two decimals in brackets, the label in
      brackets, then " : ", the text and a blank line. */
  function FormatLine(l: TranscriptLine): (r: string)
    ensures |l.text| + 2 < |r| && r[0] == '['
    ensures r[|r| - |l.text| - 2..] == l.text + "\n\n"
  {
    "[" + Fixed2(l.startCs) + " - " + Fixed2(l.endCs) + "] [" + l.speaker + "] : " + l.text + "\n\n"
  }

  /** The lines rendered one after the other. */
  function FormatLines(ls: seq<TranscriptLine>): (r: string)
    ensures r == "" <==> |ls| == 0
  {
    Join(ls, FormatLine)
  }

  /** The first line comes first. */
  lemma FormatLinesFirst(ls: seq<TranscriptLine>)
    requires |ls| > 0
    ensures FormatLines(ls) == FormatLine(ls[0]) + FormatLines(ls[1..])
  {
    JoinFirst(ls, FormatLine);
  }

  /** The line written for one row: the display values of its times, its
      speaker, and what the recogniser makes of its piece of the waveform at the
      target sample rate. */
  function LineFor(row: Diarizer.Row, waveform: seq<Sample>, cfg: AsrConfig, infer: Recogniser): TranscriptLine
  {
    TranscriptLine(Centis(DisplayTime(row.startTime, cfg.timestampFormat)),
                   Centis(DisplayTime(row.endTime, cfg.timestampFormat)),
                   row.speaker,
                   infer(SegmentAudio(waveform, row, cfg.targetSr), cfg.targetSr))
  }

  function LinesFor(rows: seq<Diarizer.Row>, waveform: seq<Sample>, cfg: AsrConfig, infer: Recogniser): (ls: seq<TranscriptLine>)
    ensures |ls| == |rows|
    ensures forall i :: 0 <= i < |rows| ==> ls[i] == LineFor(rows[i], waveform, cfg, infer)
  {
    if |rows| == 0 then []
    else LinesFor(rows[..|rows| - 1], waveform, cfg, infer) + [LineFor(rows[|rows| - 1], waveform, cfg, infer)]
  }

  /** Transcribing one more row appends exactly that row's line. */
  lemma TranscriptGrows(rows: seq<Diarizer.Row>, x: nat, waveform: seq<Sample>, cfg: AsrConfig, infer: Recogniser)
    requires x < |rows|
    ensures FormatLines(LinesFor(rows[..x + 1], waveform, cfg, infer))
         == FormatLines(LinesFor(rows[..x], waveform, cfg, infer)) + FormatLine(LineFor(rows[x], waveform, cfg, infer))
  {
    var done, line := LinesFor(rows[..x], waveform, cfg, infer), LineFor(rows[x], waveform, cfg, infer);
    assert rows[..x + 1][..x] == rows[..x];
    assert LinesFor(rows[..x + 1], waveform, cfg, infer) == done + [line];
    JoinAppend(done, [line], FormatLine);
    assert [line][..0] == [];
  }

  /** `diar_inference` after loading: diarize the turns, then transcribe row by
      row. `calls` records the waveform piece handed to the recogniser at each
      call, in order. */
  method DiarInference(turns: seq<Diarizer.Turn>, waveform: seq<Sample>, cfg: AsrConfig, infer: Recogniser)
    returns (r: Result<string, Diarizer.DiarizeError>, ghost calls: seq<seq<Sample>>)
    ensures Diarizer.Table(turns, cfg.diarizer).Failure? ==>
              r == Failure(Diarizer.Table(turns, cfg.diarizer).error) && calls == []
    ensures Diarizer.Table(turns, cfg.diarizer).Success? ==>
              var rows := Diarizer.Table(turns, cfg.diarizer).value;
              && r == Success(FormatLines(LinesFor(rows, waveform, cfg, infer)))
              && |calls| == |rows|
              && forall x :: 0 <= x < |rows| ==> calls[x] == SegmentAudio(waveform, rows[x], cfg.targetSr)
  {
    var diarized := Diarizer.Diarize(turns, cfg.diarizer);
    if diarized.Failure? {
      return Failure(diarized.error), [];
    }
    var finalTranscription;
    finalTranscription, calls := TranscribeRows(diarized.value, waveform, cfg, infer);
    r := Success(finalTranscription);
  }

  /** One pass of the loop body: slice the row's audio, recognise it, convert
      the times for display and build the line. */
  method TranscribeRow(row: Diarizer.Row, waveform: seq<Sample>, cfg: AsrConfig, infer: Recogniser)
    returns (line: TranscriptLine, ghost piece: seq<Sample>)
    ensures line == LineFor(row, waveform, cfg, infer)
    ensures piece == SegmentAudio(waveform, row, cfg.targetSr)
  {
    var startTime, endTime := row.startTime, row.endTime;
    var startFrame, endFrame := FrameIndex(startTime, cfg.targetSr), FrameIndex(endTime, cfg.targetSr);
    var splitAudio := PySlice(waveform, startFrame, endFrame);
    var transcription := infer(splitAudio, cfg.targetSr);
    piece := splitAudio;
    if cfg.timestampFormat == "minutes" {
      startTime := startTime / 60.0;
      endTime := endTime / 60.0;
    }
    line := TranscriptLine(Centis(startTime), Centis(endTime), row.speaker, transcription);
  }

  /** The loop of `diar_inference` over the rows of the diarization table. */
  method TranscribeRows(segments: seq<Diarizer.Row>, waveform: seq<Sample>, cfg: AsrConfig, infer: Recogniser)
    returns (finalTranscription: string, ghost calls: seq<seq<Sample>>)
    ensures finalTranscription == FormatLines(LinesFor(segments, waveform, cfg, infer))
    ensures |calls| == |segments|
    ensures forall x :: 0 <= x < |segments| ==> calls[x] == SegmentAudio(waveform, segments[x], cfg.targetSr)
  {
    finalTranscription := "";
    calls := [];
    for x := 0 to |segments|
      invariant finalTranscription == FormatLines(LinesFor(segments[..x], waveform, cfg, infer))
      invariant |calls| == x
      invariant forall k :: 0 <= k < x ==> calls[k] == SegmentAudio(waveform, segments[k], cfg.targetSr)
    {
      var line, piece := TranscribeRow(segments[x], waveform, cfg, infer);
      TranscriptGrows(segments, x, waveform, cfg, infer);
      forall k | 0 <= k < x + 1
        ensures (calls + [piece])[k] == SegmentAudio(waveform, segments[k], cfg.targetSr)
      {
        if k == x {
          assert (calls + [piece])[k] == piece;
        } else {
          assert (calls + [piece])[k] == calls[k];
        }
      }
      calls := calls + [piece];
      finalTranscription := finalTranscription + FormatLine(line);
    }
    assert segments[..|segments|] == segments;
  }

  /** The display unit only changes the printed numbers: in either mode the same
      pieces of the waveform are transcribed, and the lines carry the same
      labels and texts. */
  lemma DisplayModeKeepsAudio(rows: seq<Diarizer.Row>, waveform: seq<Sample>, cfg: AsrConfig, infer: Recogniser, format: string)
    ensures var a := LinesFor(rows, waveform, cfg, infer);
            var b := LinesFor(rows, waveform, cfg.(timestampFormat := format), infer);
            forall i :: 0 <= i < |rows| ==> a[i].speaker == b[i].speaker && a[i].text == b[i].text
  {
  }
}
