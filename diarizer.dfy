/** The segment filter of `PyannoteDiarizer` (asr_inference_service/diarizer.py):
    the turns the pretrained diarization pipeline yields are rounded to
    milliseconds, turns shorter than the minimum segment length are dropped, and
    the survivors are merged into a table of rows
    `start_time, end_time, speaker, text`. A surviving turn of a new speaker opens
    a row, a turn of the same speaker after a silence longer than the minimum
    silence length opens a row too, and any other turn extends the last row.

    The pipeline call itself is external: its output is the sequence of turns
    given to `Diarize` and `DiarizeIntoString`. */
module Diarizer {
  import opened Wrappers
  import opened Text

  /** A time on the recording's timeline, in seconds. */
  type Seconds = x: real | 0.0 <= x

  /** One `(turn, _, speaker)` item of `itertracks(yield_label=True)`. */
  datatype Turn = Turn(start: Seconds, stop: Seconds, speaker: string)

  /** One row of the result table. `text` is left empty by the diarizer. */
  datatype Row = Row(startTime: Seconds, endTime: Seconds, speaker: string, text: string)

  /** The thresholds fixed when the diarizer is constructed. */
  datatype Config = Config(minSegmentLength: real, minSilenceLength: real)

  /** `prev_stoptime` is read before it is ever assigned: this happens exactly
      when the first surviving turn carries the label "None", the initial value
      of `prev_speaker` (an `UnboundLocalError` in the source). */
  datatype DiarizeError = PrevStoptimeUnbound

  /** Device selection of the constructor: "cuda" and "cpu" are kept, anything
      else falls back to "cuda" when it is available and to "cpu" otherwise. */
  function SelectDevice(device: string, cudaAvailable: bool): (r: string)
    ensures r == "cuda" || r == "cpu"
    ensures device == "cuda" || device == "cpu" ==> r == device
    ensures device != "cuda" && device != "cpu" ==> (r == "cuda" <==> cudaAvailable)
  {
    if device == "cuda" || device == "cpu" then device
    else if cudaAvailable then "cuda" else "cpu"
  }

  /** The diarizer re-selects the device its owner has already selected: that
      second selection changes nothing, whatever CUDA availability it sees. */
  lemma SelectDeviceIdempotent(device: string, cudaAvailable: bool, cudaAvailable': bool)
    ensures SelectDevice(SelectDevice(device, cudaAvailable), cudaAvailable') == SelectDevice(device, cudaAvailable)
  {
  }

  /** Whole milliseconds nearest to `x`. */
  function Millis(x: Seconds): (m: nat)
    ensures x * 1000.0 - 0.5 < m as real <= x * 1000.0 + 0.5
  {
    RoundHalfUp(x * 1000.0)
  }

  /** `round(x, 3)`: the time rounded to milliseconds. */
  function Round3(x: Seconds): (r: Seconds)
    ensures x - 0.0005 < r <= x + 0.0005
  {
    Millis(x) as real / 1000.0
  }

  lemma Round3Monotone(x: Seconds, y: Seconds)
    requires x <= y
    ensures Round3(x) <= Round3(y)
  {
    RoundHalfUpMonotone(x * 1000.0, y * 1000.0);
  }

  /** A turn that survives the minimum-length filter. */
  predicate Survives(t: Turn, cfg: Config)
  {
    !(Round3(t.stop) - Round3(t.start) < cfg.minSegmentLength)
  }

  /** The row a surviving turn opens. */
  function NewRow(t: Turn): Row
  {
    Row(Round3(t.start), Round3(t.stop), t.speaker, "")
  }

  /** The loop state: the table built so far, `prev_speaker` and `prev_stoptime`
      (`None` while it is unassigned). */
  datatype MergeState = MergeState(rows: seq<Row>, prevSpeaker: string, prevStop: Option<Seconds>)

  const Initial := MergeState([], "None", None)

  /** Adjacent rows of the same speaker are separated by more than `minSilence`. */
  predicate Separated(rows: seq<Row>, minSilence: real)
  {
    forall i :: 0 < i < |rows| && rows[i - 1].speaker == rows[i].speaker ==>
      rows[i].startTime - rows[i - 1].endTime > minSilence
  }

  /** The invariant of the merge loop. `prev_speaker` and `prev_stoptime` are the
      last row's speaker and end, and `prev_stoptime` is assigned exactly when
      there is a row; every row has empty text and same-speaker neighbours are
      separated by a long silence. */
  predicate Valid(st: MergeState, cfg: Config)
  {
    && (|st.rows| == 0 <==> st.prevStop.None?)
    && (|st.rows| == 0 ==> st.prevSpeaker == "None")
    && (|st.rows| > 0 ==>
          st.rows[|st.rows| - 1].speaker == st.prevSpeaker &&
          st.rows[|st.rows| - 1].endTime == st.prevStop.value)
    && (forall i :: 0 <= i < |st.rows| ==> st.rows[i].text == "")
    && Separated(st.rows, cfg.minSilenceLength)
  }

  /** One iteration of the merge loop, for the turn `t`. When the same speaker
      resumes after a long silence, the loop appends a row and then sets that
      row's end to the stop time it already has, so the row is simply appended. */
  function Step(st: MergeState, t: Turn, cfg: Config): (r: Result<MergeState, DiarizeError>)
    requires Valid(st, cfg)
    ensures r.Success? ==> Valid(r.value, cfg)
  {
    var startTime := Round3(t.start);
    var stopTime := Round3(t.stop);
    if stopTime - startTime < cfg.minSegmentLength then Success(st)
    else if t.speaker != st.prevSpeaker then
      AppendValid(st, t, cfg);
      Success(MergeState(st.rows + [NewRow(t)], t.speaker, Some(stopTime)))
    else if st.prevStop.None? then Failure(PrevStoptimeUnbound)
    else if startTime - st.prevStop.value > cfg.minSilenceLength then
      AppendValid(st, t, cfg);
      Success(MergeState(st.rows + [NewRow(t)], t.speaker, Some(stopTime)))
    else
      ExtendValid(st, stopTime, cfg);
      Success(MergeState(Extended(st.rows, stopTime), t.speaker, Some(stopTime)))
  }

  /** The rows with the last one's end moved to `stop`. */
  function Extended(rows: seq<Row>, stop: Seconds): seq<Row>
    requires |rows| > 0
  {
    rows[..|rows| - 1] + [rows[|rows| - 1].(endTime := stop)]
  }

  lemma AppendValid(st: MergeState, t: Turn, cfg: Config)
    requires Valid(st, cfg)
    requires t.speaker != st.prevSpeaker || (st.prevStop.Some? && Round3(t.start) - st.prevStop.value > cfg.minSilenceLength)
    ensures Valid(MergeState(st.rows + [NewRow(t)], t.speaker, Some(Round3(t.stop))), cfg)
  {
    var rows := st.rows + [NewRow(t)];
    assert forall i :: 0 <= i < |st.rows| ==> rows[i] == st.rows[i];
  }

  lemma ExtendValid(st: MergeState, stop: Seconds, cfg: Config)
    requires Valid(st, cfg) && st.prevStop.Some?
    ensures Valid(MergeState(Extended(st.rows, stop), st.prevSpeaker, Some(stop)), cfg)
  {
    var rows := Extended(st.rows, stop);
    assert forall i :: 0 <= i < |st.rows| - 1 ==> rows[i] == st.rows[i];
  }

  /** The loop state after the turns `turns`, in order. */
  function Run(turns: seq<Turn>, cfg: Config): (r: Result<MergeState, DiarizeError>)
    ensures r.Success? ==> Valid(r.value, cfg)
  {
    if |turns| == 0 then Success(Initial)
    else
      match Run(turns[..|turns| - 1], cfg)
      case Failure(e) => Failure(e)
      case Success(st) => Step(st, turns[|turns| - 1], cfg)
  }

  /** Once a prefix of the turns fails, the whole sequence fails the same way:
      the loop stops at the first error. */
  lemma {:induction false} FailureIsFinal(turns: seq<Turn>, k: nat, cfg: Config)
    requires k <= |turns| && Run(turns[..k], cfg).Failure?
    ensures Run(turns, cfg) == Run(turns[..k], cfg)
    decreases |turns| - k
  {
    if k < |turns| {
      assert turns[..k + 1][..k] == turns[..k];
      FailureIsFinal(turns, k + 1, cfg);
    } else {
      assert turns[..k] == turns;
    }
  }

  /** The table `diarize` returns for the turns `turns`. */
  function Table(turns: seq<Turn>, cfg: Config): Result<seq<Row>, DiarizeError>
  {
    match Run(turns, cfg)
    case Success(st) => Success(st.rows)
    case Failure(e) => Failure(e)
  }

  /** `PyannoteDiarizer.diarize` after the pipeline call: the merge/filter loop
      over the turns, growing the table row by row and overwriting the last
      row's end in place. */
  method Diarize(turns: seq<Turn>, cfg: Config) returns (df: Result<seq<Row>, DiarizeError>)
    ensures df == Table(turns, cfg)
  {
    var rows: seq<Row> := [];
    var prevSpeaker := "None";
    var prevStoptime: Option<Seconds> := None;
    for i := 0 to |turns|
      invariant Run(turns[..i], cfg) == Success(MergeState(rows, prevSpeaker, prevStoptime))
    {
      RunNext(turns, i, cfg);
      var startTime, stopTime, curSpeaker := Round3(turns[i].start), Round3(turns[i].stop), turns[i].speaker;
      var duration := stopTime - startTime;
      if duration < cfg.minSegmentLength {
        continue;
      }
      if curSpeaker == prevSpeaker {
        if prevStoptime.None? {
          FailureIsFinal(turns, i + 1, cfg);
          return Failure(PrevStoptimeUnbound);
        }
        if startTime - prevStoptime.value > cfg.minSilenceLength {
          rows := rows + [Row(startTime, stopTime, curSpeaker, "")];
        }
        rows := rows[..|rows| - 1] + [rows[|rows| - 1].(endTime := stopTime)];
      } else {
        rows := rows + [Row(startTime, stopTime, curSpeaker, "")];
      }
      prevSpeaker := curSpeaker;
      prevStoptime := Some(stopTime);
    }
    assert turns[..|turns|] == turns;
    return Success(rows);
  }

  /** One more turn is one more step of the fold. */
  lemma RunNext(turns: seq<Turn>, i: nat, cfg: Config)
    requires i < |turns| && Run(turns[..i], cfg).Success?
    ensures Run(turns[..i + 1], cfg) == Step(Run(turns[..i], cfg).value, turns[i], cfg)
  {
    assert turns[..i + 1][..i] == turns[..i];
  }

  // ---------------------------------------------------------------------------
  // What one more turn does to the table

  /** A turn shorter than the minimum segment length is skipped entirely: no row
      is added and `prev_speaker` / `prev_stoptime` keep their values, so the next
      gap is measured from the last surviving turn. */
  lemma ShortTurnIsSkipped(turns: seq<Turn>, t: Turn, cfg: Config)
    requires !Survives(t, cfg)
    ensures Run(turns + [t], cfg) == Run(turns, cfg)
  {
    assert (turns + [t])[..|turns|] == turns;
  }

  /** What a surviving turn does, given the state `st` the earlier turns left:
      a new speaker appends a fresh row; the same speaker after a silence longer
      than the threshold appends a fresh row too (the end-time write that follows
      leaves it as it is); the same speaker after a shorter silence changes only
      the last row, whose end becomes exactly this turn's stop (not the larger of
      the two), keeping its start and speaker. */
  lemma SurvivingTurnEffect(turns: seq<Turn>, t: Turn, cfg: Config, st: MergeState)
    requires Run(turns, cfg) == Success(st) && Survives(t, cfg)
    ensures t.speaker != st.prevSpeaker ==>
              Run(turns + [t], cfg) == Success(MergeState(st.rows + [NewRow(t)], t.speaker, Some(Round3(t.stop))))
    ensures t.speaker == st.prevSpeaker && |st.rows| > 0 &&
            Round3(t.start) - st.prevStop.value > cfg.minSilenceLength ==>
              Table(turns + [t], cfg) == Success(st.rows + [NewRow(t)])
    ensures t.speaker == st.prevSpeaker && |st.rows| > 0 &&
            Round3(t.start) - st.prevStop.value <= cfg.minSilenceLength ==>
              Table(turns + [t], cfg) ==
                Success(st.rows[..|st.rows| - 1] + [st.rows[|st.rows| - 1].(endTime := Round3(t.stop))])
  {
    assert (turns + [t])[..|turns|] == turns;
    var n := |st.rows|;
    if t.speaker == st.prevSpeaker && n > 0 && Round3(t.start) - st.prevStop.value > cfg.minSilenceLength {
      var rows := st.rows + [NewRow(t)];
      assert rows[..n] + [rows[n].(endTime := Round3(t.stop))] == st.rows + [NewRow(t)];
    }
  }

  // ---------------------------------------------------------------------------
  // Properties of the whole table

  /** Every row of a successful table has empty text, and two adjacent rows of
      the same speaker are separated by more than the minimum silence length. */
  lemma TableRowsSeparated(turns: seq<Turn>, cfg: Config)
    requires Table(turns, cfg).Success?
    ensures Separated(Table(turns, cfg).value, cfg.minSilenceLength)
    ensures forall r :: r in Table(turns, cfg).value ==> r.text == ""
  {
    var st := Run(turns, cfg).value;
    forall r | r in st.rows ensures r.text == "" {
      var i :| 0 <= i < |st.rows| && st.rows[i] == r;
    }
  }

  /** The number of turns that survive the minimum-length filter. */
  function SurvivorCount(turns: seq<Turn>, cfg: Config): (n: nat)
    ensures n <= |turns|
  {
    if |turns| == 0 then 0
    else SurvivorCount(turns[..|turns| - 1], cfg) + (if Survives(turns[|turns| - 1], cfg) then 1 else 0)
  }

  /** The first turn that survives the minimum-length filter, if any. */
  function FirstSurvivor(turns: seq<Turn>, cfg: Config): (r: Option<Turn>)
    ensures r.Some? ==> r.value in turns && Survives(r.value, cfg)
  {
    if |turns| == 0 then None
    else match FirstSurvivor(turns[..|turns| - 1], cfg)
      case Some(t) => Some(t)
      case None => if Survives(turns[|turns| - 1], cfg) then Some(turns[|turns| - 1]) else None
  }

  /** There are never more rows than surviving turns. */
  lemma {:induction false} RowCountBound(turns: seq<Turn>, cfg: Config)
    requires Run(turns, cfg).Success?
    ensures |Run(turns, cfg).value.rows| <= SurvivorCount(turns, cfg)
  {
    if |turns| > 0 {
      var prefix := turns[..|turns| - 1];
      RowCountBound(prefix, cfg);
    }
  }

  /** The table is empty exactly when no turn survives the filter, and `diarize`
      fails exactly when the first surviving turn is labelled "None". For turns
      with any other labels the table therefore always exists, and it is empty
      for an empty input or one where every turn is filtered out. */
  lemma {:induction false} TableShape(turns: seq<Turn>, cfg: Config)
    ensures Run(turns, cfg).Failure? <==>
              FirstSurvivor(turns, cfg).Some? && FirstSurvivor(turns, cfg).value.speaker == "None"
    ensures Run(turns, cfg).Success? ==>
              (|Run(turns, cfg).value.rows| == 0 <==> FirstSurvivor(turns, cfg).None?)
  {
    if |turns| > 0 {
      var prefix := turns[..|turns| - 1];
      TableShape(prefix, cfg);
    }
  }

  /** Turns ordered by start time, as the pipeline yields them. */
  predicate StartsOrdered(turns: seq<Turn>)
  {
    forall i, j :: 0 <= i < j < |turns| ==> turns[i].start <= turns[j].start
  }

  /** Every row lasts at least `minSegment`, rows are ordered by start time, and
      none starts after `bound`. */
  predicate OrderedBelow(rows: seq<Row>, minSegment: real, bound: real)
  {
    && (forall i :: 0 <= i < |rows| ==> rows[i].endTime - rows[i].startTime >= minSegment)
    && (forall i, j :: 0 <= i < j < |rows| ==> rows[i].startTime <= rows[j].startTime)
    && (forall i :: 0 <= i < |rows| ==> rows[i].startTime <= bound)
  }

  lemma StepKeepsOrder(st: MergeState, t: Turn, cfg: Config, bound: real)
    requires Valid(st, cfg) && Step(st, t, cfg).Success?
    requires OrderedBelow(st.rows, cfg.minSegmentLength, bound) && bound <= Round3(t.start)
    ensures OrderedBelow(Step(st, t, cfg).value.rows, cfg.minSegmentLength, Round3(t.start))
  {
    var rows' := Step(st, t, cfg).value.rows;
    var n := |st.rows|;
    if !Survives(t, cfg) {
      assert rows' == st.rows;
    } else if t.speaker != st.prevSpeaker || Round3(t.start) - st.prevStop.value > cfg.minSilenceLength {
      assert rows' == st.rows + [NewRow(t)];
      AppendKeepsOrder(st.rows, NewRow(t), cfg.minSegmentLength, bound);
    } else {
      assert rows' == st.rows[..n - 1] + [st.rows[n - 1].(endTime := Round3(t.stop))];
      ExtendKeepsOrder(st.rows, Round3(t.stop), cfg.minSegmentLength, bound, Round3(t.start));
    }
  }

  /** Moving the last row's end to a later stop keeps the rows ordered. */
  lemma ExtendKeepsOrder(rows: seq<Row>, stop: Seconds, minSegment: real, bound: real, bound': real)
    requires OrderedBelow(rows, minSegment, bound) && |rows| > 0
    requires bound <= bound' && stop - bound' >= minSegment
    ensures OrderedBelow(rows[..|rows| - 1] + [rows[|rows| - 1].(endTime := stop)], minSegment, bound')
  {
    var rows' := rows[..|rows| - 1] + [rows[|rows| - 1].(endTime := stop)];
    assert forall i :: 0 <= i < |rows| ==> rows'[i].startTime == rows[i].startTime;
  }

  lemma AppendKeepsOrder(rows: seq<Row>, r: Row, minSegment: real, bound: real)
    requires OrderedBelow(rows, minSegment, bound) && bound <= r.startTime
    requires r.endTime - r.startTime >= minSegment
    ensures OrderedBelow(rows + [r], minSegment, r.startTime)
  {
  }

  /** For turns ordered by start time, every row lasts at least the minimum
      segment length, the rows are ordered by start time, and no row starts after
      the last turn does. */
  lemma {:induction false} OrderedRows(turns: seq<Turn>, cfg: Config)
    requires StartsOrdered(turns) && Run(turns, cfg).Success? && |turns| > 0
    ensures OrderedBelow(Run(turns, cfg).value.rows, cfg.minSegmentLength, Round3(turns[|turns| - 1].start))
  {
    var prefix := turns[..|turns| - 1];
    var t := turns[|turns| - 1];
    var st := Run(prefix, cfg).value;
    if |prefix| > 0 {
      OrderedRows(prefix, cfg);
      Round3Monotone(prefix[|prefix| - 1].start, t.start);
      StepKeepsOrder(st, t, cfg, Round3(prefix[|prefix| - 1].start));
    } else {
      StepKeepsOrder(st, t, cfg, Round3(t.start));
    }
  }

  /** A worked example: with both thresholds at one second, the second "A" turn
      merges into the first (a gap of 0.2 s) and "B" opens a row of its own. */
  lemma MergeExample()
    ensures Table([Turn(0.0, 5.0, "A"), Turn(5.2, 9.0, "A"), Turn(20.0, 25.0, "B")], Config(1.0, 1.0))
         == Success([Row(0.0, 9.0, "A", ""), Row(20.0, 25.0, "B", "")])
  {
    var t0, t1, t2 := Turn(0.0, 5.0, "A"), Turn(5.2, 9.0, "A"), Turn(20.0, 25.0, "B");
    var cfg := Config(1.0, 1.0);
    var r1 := Row(0.0, 9.0, "A", "");
    MergeExampleFirst();
    MergeExampleSecond();
    MergeExampleThird();
    assert [t0, t1, t2][..2] == [t0, t1] && [t0, t1][..1] == [t0] && [t0][..0] == [];
    assert Run([t0], cfg) == Success(MergeState([Row(0.0, 5.0, "A", "")], "A", Some(5.0)));
    assert Run([t0, t1], cfg) == Success(MergeState([r1], "A", Some(9.0)));
  }

  lemma MergeExampleFirst()
    ensures Step(Initial, Turn(0.0, 5.0, "A"), Config(1.0, 1.0))
         == Success(MergeState([Row(0.0, 5.0, "A", "")], "A", Some(5.0)))
  {
    assert Millis(0.0) == 0 && Millis(5.0) == 5000;
    assert NewRow(Turn(0.0, 5.0, "A")) == Row(0.0, 5.0, "A", "");
    assert Initial.rows + [Row(0.0, 5.0, "A", "")] == [Row(0.0, 5.0, "A", "")];
  }

  lemma MergeExampleSecond()
    ensures Step(MergeState([Row(0.0, 5.0, "A", "")], "A", Some(5.0)), Turn(5.2, 9.0, "A"), Config(1.0, 1.0))
         == Success(MergeState([Row(0.0, 9.0, "A", "")], "A", Some(9.0)))
  {
    assert Millis(5.2) == 5200 && Millis(9.0) == 9000;
    assert Extended([Row(0.0, 5.0, "A", "")], 9.0) == [Row(0.0, 9.0, "A", "")];
  }

  lemma MergeExampleThird()
    ensures Step(MergeState([Row(0.0, 9.0, "A", "")], "A", Some(9.0)), Turn(20.0, 25.0, "B"), Config(1.0, 1.0))
         == Success(MergeState([Row(0.0, 9.0, "A", ""), Row(20.0, 25.0, "B", "")], "B", Some(25.0)))
  {
    assert Millis(20.0) == 20000 && Millis(25.0) == 25000;
    assert NewRow(Turn(20.0, 25.0, "B")) == Row(20.0, 25.0, "B", "");
    assert [Row(0.0, 9.0, "A", "")] + [Row(20.0, 25.0, "B", "")] == [Row(0.0, 9.0, "A", ""), Row(20.0, 25.0, "B", "")];
  }

  /** A turn shorter than the minimum segment length is dropped, so the next
      turn of the same speaker opens the first row. */
  lemma DropExample()
    ensures Table([Turn(0.0, 0.3, "A"), Turn(0.3, 5.0, "A")], Config(1.0, 1.0))
         == Success([Row(0.3, 5.0, "A", "")])
  {
    var t0, t1 := Turn(0.0, 0.3, "A"), Turn(0.3, 5.0, "A");
    var cfg := Config(1.0, 1.0);
    assert Millis(0.0) == 0 && Millis(0.3) == 300 && Millis(5.0) == 5000;
    assert !Survives(t0, cfg) && Survives(t1, cfg);
    assert Step(Initial, t0, cfg) == Success(Initial);
    assert NewRow(t1) == Row(0.3, 5.0, "A", "");
    var s2 := Step(Initial, t1, cfg);
    assert s2.Success? && s2.value.rows == [Row(0.3, 5.0, "A", "")];
    assert [t0, t1][..1] == [t0] && [t0][..0] == [];
    assert Run([t0], cfg) == Success(Initial);
    assert Run([t0, t1], cfg) == s2;
  }

  // ---------------------------------------------------------------------------
  // diarize_into_string

  /** One line of `diarize_into_string`: both times printed to three decimals. */
  function TurnLine(t: Turn): string
  {
    "start=" + Fixed3(Millis(t.start)) + "s stop=" + Fixed3(Millis(t.stop)) + "s speaker_" + t.speaker + " \n"
  }

  /** The concatenation of the lines of all turns, in order. */
  function TurnLines(turns: seq<Turn>): string
  {
    if |turns| == 0 then "" else TurnLines(turns[..|turns| - 1]) + TurnLine(turns[|turns| - 1])
  }

  /** `PyannoteDiarizer.diarize_into_string` after the pipeline call: one line per
      turn, in order, with no filtering. */
  method DiarizeIntoString(turns: seq<Turn>) returns (simpleText: string)
    ensures simpleText == TurnLines(turns)
  {
    simpleText := "";
    for i := 0 to |turns|
      invariant simpleText == TurnLines(turns[..i])
    {
      assert turns[..i + 1][..i] == turns[..i];
      simpleText := simpleText + TurnLine(turns[i]);
    }
    assert turns[..|turns|] == turns;
  }

  /** The number of occurrences of `c` in `s`. */
  function CountChar(s: string, c: char): nat
  {
    if |s| == 0 then 0 else CountChar(s[..|s| - 1], c) + (if s[|s| - 1] == c then 1 else 0)
  }

  lemma {:induction false} CountCharConcat(a: string, b: string, c: char)
    ensures CountChar(a + b, c) == CountChar(a, c) + CountChar(b, c)
    decreases |b|
  {
    if |b| > 0 {
      assert (a + b)[..|a + b| - 1] == a + b[..|b| - 1];
      CountCharConcat(a, b[..|b| - 1], c);
    } else {
      assert a + b == a;
    }
  }

  /** Exactly one line per turn: when no label holds a line break, the text has
      as many line breaks as there are turns. */
  lemma {:induction false} OneLinePerTurn(turns: seq<Turn>)
    requires forall t :: t in turns ==> '\n' !in t.speaker
    ensures CountChar(TurnLines(turns), '\n') == |turns|
  {
    if |turns| > 0 {
      var t := turns[|turns| - 1];
      assert forall u :: u in turns[..|turns| - 1] ==> u in turns;
      OneLinePerTurn(turns[..|turns| - 1]);
      TurnLineHasOneBreak(t);
      CountCharConcat(TurnLines(turns[..|turns| - 1]), TurnLine(t), '\n');
    }
  }

  lemma TurnLineHasOneBreak(t: Turn)
    requires '\n' !in t.speaker
    ensures CountChar(TurnLine(t), '\n') == 1
  {
    var a, b := Fixed3(Millis(t.start)), Fixed3(Millis(t.stop));
    NoBreakInFixed3(Millis(t.start));
    NoBreakInFixed3(Millis(t.stop));
    var pre := "start=" + a + "s stop=" + b + "s speaker_" + t.speaker;
    assert '\n' !in pre;
    NoCharCount(pre, '\n');
    assert CountChar(" \n", '\n') == 1;
    CountCharConcat(pre, " \n", '\n');
    assert TurnLine(t) == pre + " \n";
  }

  lemma NoBreakInFixed3(m: nat)
    ensures '\n' !in Fixed3(m)
  {
    var ds, fs := NatDigits(m / 1000), Frac3(m);
    assert forall i :: 0 <= i < |ds| ==> IsDigit(ds[i]);
    assert forall i :: 0 <= i < |fs| ==> IsDigit(fs[i]);
    assert Fixed3(m) == ds + "." + fs;
  }

  lemma {:induction false} NoCharCount(s: string, c: char)
    requires c !in s
    ensures CountChar(s, c) == 0
  {
    if |s| > 0 {
      assert forall x :: x in s[..|s| - 1] ==> x in s;
      NoCharCount(s[..|s| - 1], c);
    }
  }

  /** The times the line prints read back as exactly the millisecond-rounded
      times the table uses. */
  lemma PrintedTimesAreRounded(t: Turn)
    ensures TurnLine(t) == "start=" + NatDigits(Millis(t.start) / 1000) + "." + Frac3(Millis(t.start))
                         + "s stop=" + NatDigits(Millis(t.stop) / 1000) + "." + Frac3(Millis(t.stop))
                         + "s speaker_" + t.speaker + " \n"
    ensures DecimalValue(NatDigits(Millis(t.start) / 1000), Frac3(Millis(t.start))) == Round3(t.start)
    ensures DecimalValue(NatDigits(Millis(t.stop) / 1000), Frac3(Millis(t.stop))) == Round3(t.stop)
  {
    Fixed3Value(Millis(t.start));
    Fixed3Value(Millis(t.stop));
  }
}
