/** The arithmetic of `transcription_logic` (main.py): the clip window around the
    chosen speaker, the offset rule, the sample indices of the clip, the
    timeline the clip's transcript is read back on, and the two results the
    function returns.

    The helpers main.py calls do not fit together as called, and this model does
    not invent a composition that would:
    - main.py:41 and main.py:69 call `get_timestamps_for_speaker(speaker, file)`,
      which takes one argument; the start/end/all reader with two arguments is
      `get_timestamps_for_speaker_timestamps` (`ReferenceTranscript.SpeakerTimestamps`).
    - That reader yields `(start, end)` pairs, but main.py:108-110 hands them to
      `convert_list_of_timestamps_to_seconds`, which unpacks triples.
    - main.py:119-121 passes the dictionary from `get_most_frequent_speaker` as
      the text to replace.
    Each helper is modelled as written in its own module; here are the steps of
    `transcription_logic` itself. */
module App {
  import opened Wrappers
  import opened Text
  import ReferenceTranscript
  import Diarizer
  import AsrModel
  import TranscriptParser

  type Seconds = Diarizer.Seconds

  /** What `datetime.strptime(t, "%H:%M:%S.%f")` keeps of a time of day. */
  datatype ClockTime = ClockTime(hour: nat, minute: nat, second: nat, microsecond: nat)

  /** The error `strptime` raises on a time it does not accept. */
  datatype ClockError = ValueError

  /** `strptime` on a timestamp of the shape the cue readers return,
      `HH:MM:SS.mmm`: `%f` pads the three digits with zeros to microseconds, and
      an hour above 23 or a minute or second above 59 is a `ValueError`. */
  function ParseClock(t: string): (r: Result<ClockTime, ClockError>)
    requires ReferenceTranscript.IsTimestamp(t)
    ensures r.Success? <==> DigitsValue(t[0..2]) <= 23 && DigitsValue(t[3..5]) <= 59 && DigitsValue(t[6..8]) <= 59
    ensures r.Success? ==> && r.value.hour <= 23 && r.value.minute <= 59 && r.value.second <= 59
                           && r.value.microsecond < 1000000 && r.value.microsecond % 1000 == 0
                           && ClockSeconds(r.value) == ReferenceTranscript.TimestampValue(t)
  {
    var hour, minute, second := DigitsValue(t[0..2]), DigitsValue(t[3..5]), DigitsValue(t[6..8]);
    var millis := DigitsValue(t[9..12]);
    assert millis < 1000 by {
      assert Pow10(3) == 1000 by {
        assert Pow10(1) == 10 && Pow10(2) == 100;
      }
      DigitsBelow(t[9..12]);
    }
    if hour > 23 || minute > 59 || second > 59 then Failure(ValueError)
    else Success(ClockTime(hour, minute, second, millis * 1000))
  }

  /** A string of `k` digits denotes less than `10^k`. */
  lemma {:induction false} DigitsBelow(ds: string)
    requires AllDigits(ds)
    ensures DigitsValue(ds) < Pow10(|ds|)
  {
    if |ds| > 0 {
      DigitsBelow(ds[..|ds| - 1]);
    }
  }

  /** `hour * 3600 + minute * 60 + second + microsecond / 1_000_000`. */
  function ClockSeconds(c: ClockTime): Seconds
  {
    c.hour as real * 3600.0 + c.minute as real * 60.0 + c.second as real + c.microsecond as real / 1000000.0
  }

  /** The offset rule: the start moves back by `offsetSec` only when it stays
      positive, so the clip never starts before the recording. */
  function ShiftStart(startSeconds: Seconds, offsetSec: real): (s: Seconds)
    ensures startSeconds - offsetSec > 0.0 ==> s == startSeconds - offsetSec
    ensures startSeconds - offsetSec <= 0.0 ==> s == startSeconds
    ensures 0.0 <= offsetSec ==> s <= startSeconds
  {
    if startSeconds - offsetSec > 0.0 then startSeconds - offsetSec else startSeconds
  }

  /** The clip to transcribe, in seconds of the recording. */
  datatype Window = Window(startSeconds: Seconds, endSeconds: Seconds)

  /** The window as main.py:75-90 computes it: the end is built from the end
      time's hour, minute and second, but the start time's microseconds. */
  function ClipWindowAsWritten(startTime: ClockTime, endTime: ClockTime, offsetSec: real): (w: Window)
    ensures w.startSeconds == ShiftStart(ClockSeconds(startTime), offsetSec)
    ensures w.endSeconds == ClockSeconds(endTime) + (startTime.microsecond as real - endTime.microsecond as real) / 1000000.0
  {
    var startSeconds := ClockSeconds(startTime);
    var endSeconds := endTime.hour as real * 3600.0 + endTime.minute as real * 60.0 + endTime.second as real
                      + startTime.microsecond as real / 1000000.0;
    Window(ShiftStart(startSeconds, offsetSec), endSeconds)
  }

  /** The end of the window as written is the end time only when both times
      share their microseconds. */
  lemma AsWrittenEndIsEndTime(startTime: ClockTime, endTime: ClockTime, offsetSec: real)
    ensures ClipWindowAsWritten(startTime, endTime, offsetSec).endSeconds == ClockSeconds(endTime)
            <==> startTime.microsecond == endTime.microsecond
  {
  }

  /** The window as evidently intended: the end time in full. */
  function ClipWindow(startTime: ClockTime, endTime: ClockTime, offsetSec: real): (w: Window)
    ensures w.startSeconds == ShiftStart(ClockSeconds(startTime), offsetSec)
    ensures w.endSeconds == ClockSeconds(endTime)
  {
    Window(ShiftStart(ClockSeconds(startTime), offsetSec), ClockSeconds(endTime))
  }

  /** With the intended window, the clip runs from the speaker's first cue, moved
      back by the offset when that stays positive, to the end of the speaker's
      last cue, both as `convert_to_seconds` reads the timestamps. It holds all
      of the speaker's speech when the cues are in order. */
  lemma ClipWindowSpansCues(startTs: string, endTs: string, offsetSec: real)
    requires ReferenceTranscript.IsTimestamp(startTs) && ReferenceTranscript.IsTimestamp(endTs)
    requires ParseClock(startTs).Success? && ParseClock(endTs).Success?
    ensures var w := ClipWindow(ParseClock(startTs).value, ParseClock(endTs).value, offsetSec);
            && ReferenceTranscript.ConvertToSeconds(endTs) == Some(w.endSeconds)
            && ReferenceTranscript.ConvertToSeconds(startTs) == Some(ClockSeconds(ParseClock(startTs).value))
            && (0.0 <= offsetSec ==> w.startSeconds <= ClockSeconds(ParseClock(startTs).value))
  {
    ReferenceTranscript.ConvertTimestamp(startTs);
    ReferenceTranscript.ConvertTimestamp(endTs);
  }

  /** The two timestamps that show the discrepancy: the speaker starts at
      1.5 s and stops at 2.0 s, and the window as written ends at 2.5 s. */
  lemma AsWrittenEndExample(startTs: string, endTs: string)
    requires startTs == "00:00:01.500" && endTs == "00:00:02.000"
    ensures ReferenceTranscript.IsTimestamp(startTs) && ReferenceTranscript.IsTimestamp(endTs)
    ensures ParseClock(startTs) == Success(ClockTime(0, 0, 1, 500000))
    ensures ParseClock(endTs) == Success(ClockTime(0, 0, 2, 0))
    ensures ClipWindowAsWritten(ClockTime(0, 0, 1, 500000), ClockTime(0, 0, 2, 0), 1.5).endSeconds == 2.5
    ensures ClipWindow(ClockTime(0, 0, 1, 500000), ClockTime(0, 0, 2, 0), 1.5).endSeconds == 2.0
  {
    assert startTs[0..2] == ['0', '0'] && startTs[3..5] == ['0', '0'] && startTs[6..8] == ['0', '1'];
    assert startTs[9..12] == ['5', '0', '0'];
    assert endTs[0..2] == ['0', '0'] && endTs[3..5] == ['0', '0'] && endTs[6..8] == ['0', '2'];
    assert endTs[9..12] == ['0', '0', '0'];
    TwoDigitsValue('0', '0');
    TwoDigitsValue('0', '1');
    TwoDigitsValue('0', '2');
    ThreeDigitsValue('5', '0', '0');
    ThreeDigitsValue('0', '0', '0');
  }

  /** `int(start_seconds * SAMPLE_RATE)` and `int(end_seconds * SAMPLE_RATE)`. */
  function ClipFrames(w: Window, sampleRate: nat): (frames: (nat, nat))
    ensures frames.0 as real <= w.startSeconds * sampleRate as real < frames.0 as real + 1.0
    ensures frames.1 as real <= w.endSeconds * sampleRate as real < frames.1 as real + 1.0
  {
    (AsrModel.FrameIndex(w.startSeconds, sampleRate), AsrModel.FrameIndex(w.endSeconds, sampleRate))
  }

  /** `y[int(start_timeframe):int(end_timeframe)]`: sample `k` of the clip is
      sample `k` after the clip's first frame in the recording. */
  function TruncatedAudio(y: seq<AsrModel.Sample>, w: Window, sampleRate: nat): (clip: seq<AsrModel.Sample>)
    ensures |clip| <= |y|
    ensures var (lo, hi) := ClipFrames(w, sampleRate);
            |clip| == if lo < hi && lo < |y| then (if hi < |y| then hi else |y|) - lo else 0
    ensures forall k :: 0 <= k < |clip| ==> ClipFrames(w, sampleRate).0 + k < |y| && clip[k] == y[ClipFrames(w, sampleRate).0 + k]
  {
    var frames := ClipFrames(w, sampleRate);
    AsrModel.PySlice(y, frames.0, frames.1)
  }

  /** main.py:111-113: the clip's transcript is parsed with the shifted start as
      offset, so in "seconds" mode every parsed row lies, to within the 2-decimal
      print, where the row's time in the clip lands on the recording's timeline.
      In "minutes" mode the offset in seconds is added to times printed in
      minutes. */
  lemma ClipTranscriptTimeline(rows: seq<Diarizer.Row>, clip: seq<AsrModel.Sample>, cfg: AsrModel.AsrConfig,
                               infer: AsrModel.Recogniser, w: Window)
    requires cfg.timestampFormat == "seconds"
    requires forall i :: 0 <= i < |rows| ==> TranscriptParser.Parsable(AsrModel.LineFor(rows[i], clip, cfg, infer))
    ensures var ivs := TranscriptParser.ParseTranscript(AsrModel.FormatLines(AsrModel.LinesFor(rows, clip, cfg, infer)), w.startSeconds);
            && |ivs| == |rows|
            && forall i :: 0 <= i < |rows| ==>
                 && ivs[i].speaker == rows[i].speaker
                 && w.startSeconds + rows[i].startTime - 0.005 < ivs[i].start <= w.startSeconds + rows[i].startTime + 0.005
                 && w.startSeconds + rows[i].endTime - 0.005 < ivs[i].end <= w.startSeconds + rows[i].endTime + 0.005
  {
    var text := AsrModel.FormatLines(AsrModel.LinesFor(rows, clip, cfg, infer));
    TranscriptParser.TranscriptRowsParseBack(rows, clip, cfg, infer);
    TranscriptParser.OffsetShifts(text, w.startSeconds);
  }

  /** main.py:122-124: the header line, then the transcript. */
  function WithInterviewHeader(speaker: string, transcription: string): (r: string)
    ensures |r| == |speaker| + |transcription| + 38
    ensures StartsWith(r, "Transcriptions for " + speaker + " as interviewee: \n\n")
    ensures r[|r| - |transcription|..] == transcription
  {
    "Transcriptions for " + speaker + " as interviewee: \n\n" + transcription
  }

  /** main.py:126-135: without a chosen speaker the whole resampled recording
      goes to `diar_inference`, and its transcript is returned as it is. */
  method TranscribeWholeRecording(turns: seq<Diarizer.Turn>, y: seq<AsrModel.Sample>, cfg: AsrModel.AsrConfig,
                                  infer: AsrModel.Recogniser)
    returns (transcription: Result<string, Diarizer.DiarizeError>)
    ensures Diarizer.Table(turns, cfg.diarizer).Failure? ==>
              transcription == Failure(Diarizer.Table(turns, cfg.diarizer).error)
    ensures Diarizer.Table(turns, cfg.diarizer).Success? ==>
              transcription == Success(AsrModel.FormatLines(AsrModel.LinesFor(Diarizer.Table(turns, cfg.diarizer).value, y, cfg, infer)))
  {
    ghost var calls;
    transcription, calls := AsrModel.DiarInference(turns, y, cfg, infer);
  }
}
