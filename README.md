# Diarized transcripts with a named interviewee — a Dafny model

This project models the text-and-time core of a Gradio application. The application transcribes a recorded interview and labels each speaker turn. Given a Zoom transcript of the same meeting, it also finds which diarization label belongs to a chosen participant.

The chain modelled here:

- **Diarizer** (`asr_inference_service/diarizer.py`) turns speaker turns into a table of rows. It rounds times to milliseconds, drops turns shorter than the minimum segment length, and merges a turn into the previous row when the same speaker resumes within the minimum silence length. The turns come from an external pipeline and are an input here. The merge is an imperative loop (`Diarizer.Diarize`) proved equal to a fold (`Diarizer.Run`). The fold keeps an invariant: consecutive rows of one speaker stay more than the minimum silence apart, and the last row carries the remembered speaker and stop time. For turns in start order, rows stay in start order and each lasts at least the minimum segment length.
- **ASR model** (`asr_inference_service/model.py`) normalises its configuration. For each diarized row it cuts the waveform slice `[int(start*sr) : int(end*sr)]` and formats `[start - end] [SPEAKER] : text` with two decimals, in seconds or in minutes. The recogniser is an uninterpreted function parameter.
- **Transcript parser** (`convert_diar_string_to_list`, `utils/utils.py`) reads the headers back with the regular expression `\[(\d+\.\d+) - (\d+\.\d+)\] \[([A-Z_0-9]+)\]` and shifts them by an offset. A round-trip lemma shows that parsing a formatted transcript returns every row's speaker, and its times to within the 0.005 of two-decimal rounding, as long as no recognised text holds a header of its own (a `[Music]` does not).
- **Zoom transcript readers** (`utils/utils.py`) are the cue-line scans for one speaker and for all speakers, the `^name: ` scan, `convert_to_seconds` and the midpoint list. Lemmas about a generated, well-formed Zoom transcript show that each scan returns exactly its blocks.
- **Speaker resolution** (`get_most_frequent_speaker`, `most_frequent_in_list`) records a pair (diarization label, Zoom name) for every midpoint inside every segment. It groups the names by label and elects the most common name per label; `Counter.most_common` breaks ties by first occurrence. The loops are methods proved equal to functions whose meaning is shown by lemmas.
- **Replacement** (`replacement_of_string_in_text`) performs a left-to-right, non-overlapping literal replacement, with the empty-pattern case handled.
- **Main flow** (`transcription_logic`, `main.py`) parses the `strptime` clock of the cue timestamps. It computes the clip window with the offset rule, slices the audio and places the clip's transcript on the recording's timeline. It also builds the interviewee header and covers the branch without a Zoom transcript.

Times are exact `real` seconds. Python's float rounding is modelled as rounding half up on the exact value.

## Model

| member | source | states |
|---|---|---|
| Diarizer.SelectDevice | asr_inference_service/diarizer.py:18 | the device is always "cuda" or "cpu"; a valid request is kept; otherwise "cuda" exactly when CUDA is available |
| Diarizer.SelectDeviceIdempotent | asr_inference_service/model.py:29 | the diarizer re-selecting the device the model already selected (model.py:29, then diarizer.py:18) changes nothing |
| Diarizer.Round3 | asr_inference_service/diarizer.py:62 | a rounded time lies within half a millisecond of the turn's time |
| Diarizer.Round3Monotone | asr_inference_service/diarizer.py:62 | rounding keeps the order of times |
| Diarizer.Step | asr_inference_service/diarizer.py:62-80 | one loop iteration keeps the table invariant: consecutive rows of one speaker are more than the minimum silence apart; text cells are empty; a stop time is remembered exactly when a row exists; and the last row holds the remembered speaker and stop time |
| Diarizer.Run | asr_inference_service/diarizer.py:57-82 | after any prefix of the turns that has not failed, the invariant holds |
| Diarizer.FailureIsFinal | asr_inference_service/diarizer.py:68-70 | once the unbound previous stop time is read, later turns change nothing |
| Diarizer.Diarize | asr_inference_service/diarizer.py:57-82 | the imperative loop returns exactly the table the fold defines, or its error |
| Diarizer.ShortTurnIsSkipped | asr_inference_service/diarizer.py:63-66 | a turn shorter than the minimum segment length leaves the whole state unchanged |
| Diarizer.SurvivingTurnEffect | asr_inference_service/diarizer.py:68-80 | a surviving turn by a new speaker appends a row; by the same speaker after a long silence appends a row; otherwise it extends the last row's end time only |
| Diarizer.TableRowsSeparated | asr_inference_service/diarizer.py:68-77 | in the finished table consecutive rows by the same speaker are more than the minimum silence apart, and every text cell is empty |
| Diarizer.RowCountBound | asr_inference_service/diarizer.py:72-77 | the table never has more rows than there are surviving turns |
| Diarizer.TableShape | asr_inference_service/diarizer.py:58-70 | the loop fails exactly when the first surviving turn is labelled "None"; otherwise the table is empty exactly when no turn survives |
| Diarizer.OrderedRows | asr_inference_service/diarizer.py:60-77 | for turns in start order, every row lasts at least the minimum segment length, row starts are in order, and none lies beyond the last turn's rounded start |
| Diarizer.MergeExample | asr_inference_service/diarizer.py:68-74 | two turns by one speaker 0.2 s apart become one row; a turn by another speaker starts a new row |
| Diarizer.DropExample | asr_inference_service/diarizer.py:63-66 | a 0.3 s turn is dropped before it can merge |
| Diarizer.DiarizeIntoString | asr_inference_service/diarizer.py:41-46 | the loop builds exactly the concatenation of one line per turn |
| Diarizer.OneLinePerTurn | asr_inference_service/diarizer.py:43-44 | the text has exactly one line break per turn when no label contains one |
| Diarizer.PrintedTimesAreRounded | asr_inference_service/diarizer.py:44 | each line prints `start=` and `stop=` with three decimals whose value is the millisecond-rounded time |
| Text.Fixed3Value | asr_inference_service/diarizer.py:44 | a three-decimal rendering reads back as exactly the rounded value |
| Text.Fixed2Value | asr_inference_service/model.py:184 | a two-decimal rendering reads back as exactly the rounded value |
| Text.NatDigits | asr_inference_service/model.py:184 | the integer part prints as decimal digits with no leading zero that denote the number |
| AsrModel.NormaliseTimestampFormat | asr_inference_service/model.py:34 | the format is "minutes" or "seconds"; a valid request is kept and anything else becomes "seconds" |
| AsrModel.NewAsrConfig | asr_inference_service/model.py:29-36 | the configuration's device, format, sample rate and diarizer thresholds are those requested, normalised as above |
| AsrModel.FrameIndex | asr_inference_service/model.py:173-174 | the frame index is the truncation of time times sample rate |
| AsrModel.PySlice | asr_inference_service/model.py:176 | Python slicing: the length clamps at the end and an empty or inverted range is empty; every element comes from `lo + k` |
| AsrModel.DisplayTime | asr_inference_service/model.py:180-182 | in minutes mode the shown time times 60 is the time in seconds; otherwise it is unchanged |
| AsrModel.Centis | asr_inference_service/model.py:184 | the two-decimal value lies within half a hundredth of the shown time |
| AsrModel.LinesFor | asr_inference_service/model.py:169-184 | one transcript line per row, the i-th built from the i-th row |
| AsrModel.FormatLine | asr_inference_service/model.py:184 | a line opens with `[` and closes with the recognised text followed by a blank line |
| AsrModel.FormatLines | asr_inference_service/model.py:184-185 | the transcript is empty exactly when there are no rows |
| AsrModel.FormatLinesFirst | asr_inference_service/model.py:184-185 | the first row's line comes first in the transcript |
| AsrModel.TranscriptGrows | asr_inference_service/model.py:185 | each iteration appends exactly the new row's line to the transcript so far |
| AsrModel.DiarInference | asr_inference_service/model.py:158-187 | a diarizer error propagates with no recogniser call; otherwise the transcript is the lines of the table's rows, and the recogniser receives each row's waveform slice in order |
| AsrModel.TranscribeRow | asr_inference_service/model.py:170-184 | one pass of the loop: the line it builds and the slice it recognises are those of the row |
| AsrModel.TranscribeRows | asr_inference_service/model.py:167-187 | the loop builds that transcript and makes one recogniser call per row on its slice |
| AsrModel.DisplayModeKeepsAudio | asr_inference_service/model.py:173-184 | the display format changes only the printed times, not the audio slices, texts or speakers |
| TranscriptParser.MatchNumber | utils/utils.py:120 | the match is a well-formed `\d+\.\d+` and greedy: no digit follows it |
| TranscriptParser.MatchNumberComplete | utils/utils.py:120 | every well-formed number followed by a non-digit is matched |
| TranscriptParser.MatchLabel | utils/utils.py:120 | the match is a non-empty run of `[A-Z_0-9]` followed by `]` |
| TranscriptParser.MatchLabelComplete | utils/utils.py:120 | every such label is matched |
| TranscriptParser.MatchHeader | utils/utils.py:120 | a match is a well-formed header, and the text is that header's text followed by the rest |
| TranscriptParser.MatchHeaderComplete | utils/utils.py:120 | every well-formed header is matched |
| TranscriptParser.FindHeaders | utils/utils.py:122 | every header `findall` returns is well formed |
| TranscriptParser.NoBracketNoMatch | utils/utils.py:122 | text without `[` contributes no match |
| TranscriptParser.NoBracketDigitNoMatch | utils/utils.py:120-122 | text in which no `[` is directly followed by a digit has no match, brackets or not |
| TranscriptParser.MusicHoldsNoHeader | utils/utils.py:120-122 | the recognised `[Music]` holds no match |
| TranscriptParser.FindHeadersAcrossBreak | utils/utils.py:120-122 | no match spans a line break: the matches of two pieces joined by a newline are those of each piece, in order |
| TranscriptParser.FindHeadersAfterHeader | utils/utils.py:122 | a header at the head is found, and the scan resumes behind it |
| TranscriptParser.ToInterval | utils/utils.py:125-135 | the speaker is kept, and each time minus the offset is the decimal value of the matched text |
| TranscriptParser.ParseTranscript | utils/utils.py:122-137 | one interval per match; every interval carries a valid label, and both its times are at least the offset |
| TranscriptParser.ConvertDiarStringToList | utils/utils.py:106-137 | the loop returns the shifted intervals of the matches, in order |
| TranscriptParser.OffsetShifts | utils/utils.py:132-133 | parsing with an offset adds the offset to both times of every interval parsed without one |
| TranscriptParser.NothingToParse | utils/utils.py:120-137 | text in which no `[` is followed by a digit parses to no interval |
| TranscriptParser.FormatLineSplits | asr_inference_service/model.py:184 | a line with a valid label is a well-formed header, then ` : `, the recognised text and a blank line |
| TranscriptParser.LineHeaders | utils/utils.py:120-122 | the scan of a formatted line followed by anything finds the line's own header, then the matches inside its recognised text, then those of what follows |
| TranscriptParser.FindHeadersOfLines | utils/utils.py:122 | the scan of a formatted transcript finds exactly one header per line, in order |
| TranscriptParser.ParseFormattedTranscript | utils/utils.py:106-137 | when every label is valid and no recognised text holds a match, parsing a formatted transcript returns, per line, its speaker and its printed times exactly |
| TranscriptParser.TranscriptRowsParseBack | utils/utils.py:106-137 | under the same condition, parsing the transcript of diarized rows returns each row's speaker, and its displayed times to within 0.005 |
| TranscriptParser.ParseExample | utils/utils.py:106-137 | the docstring's line `[199.34 - 205.00] [SPEAKER_02] :  Okay, thanks. …` with offset 33.34 becomes 232.68, 238.34, SPEAKER_02 |
| ReferenceTranscript.MatchTimestamp | utils/utils.py:46 | a match is exactly 12 characters of shape `dd:dd:dd.ddd`, and such a head is always matched |
| ReferenceTranscript.MatchTimestampComplete | utils/utils.py:46 | every timestamp at the head is matched and split off |
| ReferenceTranscript.MatchSpaces | utils/utils.py:46 | `\s+` takes a non-empty greedy run of whitespace |
| ReferenceTranscript.MatchSpacesComplete | utils/utils.py:46 | a whitespace run followed by a non-space is taken whole |
| ReferenceTranscript.MatchCueLine | utils/utils.py:46 | a match is a well-formed cue line `start \s+-->\s+ end\n`, and the text is that line followed by the rest |
| ReferenceTranscript.MatchCueLineComplete | utils/utils.py:46 | every well-formed cue line is matched |
| ReferenceTranscript.NoCueWithoutDigit | utils/utils.py:46 | text that does not start with a digit is no cue line |
| ReferenceTranscript.MatchSpeakerCue | utils/utils.py:45-49 | a match is a cue line followed literally by `speaker:` |
| ReferenceTranscript.FindSpeakerCues | utils/utils.py:50 | every cue found is well formed |
| ReferenceTranscript.SpeakerTimestamps | utils/utils.py:37-57 | with no cue for the speaker, `matches[0]` raises IndexError; otherwise the first cue's start, the last cue's end and all cues |
| ReferenceTranscript.MatchLazyName | utils/utils.py:70 | `(.+?):` takes the shortest non-empty name without a newline that ends before a colon |
| ReferenceTranscript.FirstColonFrom | utils/utils.py:70 | the lazy scan stops at the first colon, and fails when a newline comes first |
| ReferenceTranscript.MatchLazyNameComplete | utils/utils.py:70 | a non-empty name free of colons and newlines is matched exactly |
| ReferenceTranscript.MatchNamedCue | utils/utils.py:70 | a match is a well-formed cue line followed by a non-empty name and a colon |
| ReferenceTranscript.FindNamedCues | utils/utils.py:61-74 | every triple found holds two timestamps |
| ReferenceTranscript.MatchNameLine | utils/utils.py:29 | the name is a non-empty run of letters and whitespace followed by `: ` |
| ReferenceTranscript.MatchNameLineComplete | utils/utils.py:29 | every such name at a line start is matched |
| ReferenceTranscript.FindNames | utils/utils.py:29-30 | every name found is non-empty |
| ReferenceTranscript.SpeakerNames | utils/utils.py:23-32 | the speaker set is exactly the set of names found |
| ReferenceTranscript.Split | utils/utils.py:89 | `str.split` yields at least one part, and no part holds the separator |
| ReferenceTranscript.SplitJoin | utils/utils.py:89 | joining the parts with the separator gives back the text |
| ReferenceTranscript.ParseFloat | utils/utils.py:89 | `float` of a plain decimal text is non-negative |
| ReferenceTranscript.ParseFloatDecimal | utils/utils.py:89 | `float` of `d+.d+` is its exact decimal value |
| ReferenceTranscript.ParseFloatInteger | utils/utils.py:89 | `float` of digits is their integer value |
| ReferenceTranscript.ConvertToSeconds | utils/utils.py:85-90 | a result exists only when the text splits into three parts |
| ReferenceTranscript.ConvertTimestamp | utils/utils.py:85-90 | a cue timestamp `HH:MM:SS.mmm` converts to hours·3600 + minutes·60 + seconds |
| ReferenceTranscript.IntervalMidpoint | utils/utils.py:99 | the midpoint exists exactly when both ends convert, and is their mean with the name kept |
| ReferenceTranscript.ConvertListOfTimestampsToSeconds | utils/utils.py:93-103 | the list converts exactly when every interval does, into one midpoint per interval, in order |
| ReferenceTranscript.MidpointOfTimestamps | utils/utils.py:99 | the midpoint of two cue timestamps is the mean of their values |
| ReferenceTranscript.TimestampPieces | utils/utils.py:89 | a cue timestamp splits at `:` into exactly its hours, minutes and seconds pieces |
| ReferenceTranscript.ConvertTimestampIntervals | utils/utils.py:93-103 | a list of cue timestamps always converts, to the list of midpoints |
| ReferenceTranscript.NamedCuesConvert | utils/utils.py:61-103 | whatever the all-speakers reader returns always converts to midpoints |
| ReferenceTranscript.NamedCuesOfZoom | utils/utils.py:61-74 | in a Zoom transcript, the all-speakers reader returns each block's start, end and name, in order |
| ReferenceTranscript.SpeakerCuesOfZoom | utils/utils.py:45-50 | in a Zoom transcript, the one-speaker reader returns exactly the cue lines of that speaker's blocks, in order |
| ReferenceTranscript.NamesOfZoom | utils/utils.py:29-30 | in a Zoom transcript, the name scan returns each block's name, in order |
| ReferenceTranscript.SpeakerNamesOfZoom | utils/utils.py:23-32 | the speaker set of a Zoom transcript is exactly the set of its block names |
| SpeakerResolver.PairsAt | utils/utils.py:157-164 | for one midpoint, at most one pair per segment, each carrying the midpoint's name |
| SpeakerResolver.Pairs | utils/utils.py:153-166 | at most one pair per midpoint and segment |
| SpeakerResolver.PairRecorded | utils/utils.py:155-164 | every segment that contains a midpoint (ends included) records the pair of its label and the midpoint's name |
| SpeakerResolver.PairJustified | utils/utils.py:155-164 | every recorded pair comes from a segment containing a midpoint |
| SpeakerResolver.NamesFor | utils/utils.py:169-171 | a label has recorded names exactly when it appears in a pair |
| SpeakerResolver.NamesForCounts | utils/utils.py:169-171 | the grouped list holds each name as often as the pair (label, name) was recorded |
| SpeakerResolver.Leader | utils/utils.py:176 | the chosen index has a maximal count, and every earlier element has a strictly smaller count |
| SpeakerResolver.MostCommon | utils/utils.py:176 | the most common element occurs in the list, and no element is counted more often |
| SpeakerResolver.TiedLater | utils/utils.py:176 | among tied elements the most common is the first to occur: every prefix ending in an element counted as often contains it |
| SpeakerResolver.MostFrequentInList | utils/utils.py:140-144 | `max` of an empty set is a ValueError; otherwise the result is in the list with maximal count |
| SpeakerResolver.Resolve | utils/utils.py:147-179 | the map's keys are exactly the labels of the recorded pairs |
| SpeakerResolver.ResolveElects | utils/utils.py:147-179 | each label's name was recorded with it, as often as any other name, and is the first recorded among names with that count |
| SpeakerResolver.UnanimousLabel | utils/utils.py:175-177 | a label recorded with one name only gets that name |
| SpeakerResolver.UncoveredMidpoint | utils/utils.py:155-164 | a midpoint inside no segment does not change the result |
| SpeakerResolver.GetMostFrequentSpeaker | utils/utils.py:147-179 | the three loops return exactly the resolution function |
| SpeakerResolver.RecordPairs | utils/utils.py:153-166 | the nested loop records exactly the pairs, midpoint by midpoint and segment by segment |
| SpeakerResolver.GroupNames | utils/utils.py:169-171 | the dictionary has one key per recorded label, holding that label's names in order |
| SpeakerResolver.Vote | utils/utils.py:174-177 | each label maps to the most common of its names |
| Replacement.Replace | utils/utils.py:77-82 | every character of the result comes from the text or the replacement; a non-empty pattern with a replacement no longer than it never lengthens the text |
| Replacement.ReplaceLeftmost | utils/utils.py:81-82 | the leftmost occurrence is replaced: the text before it is kept, and the scan resumes behind it |
| Replacement.ReplaceKeepsPrefix | utils/utils.py:81-82 | text in which no occurrence starts is kept as it is, ahead of what the rest of the text becomes |
| Replacement.InsertEverywhere | utils/utils.py:81-82 | an empty pattern inserts the replacement at each of the `|text| + 1` positions, adding no other character |
| Replacement.NoOccurrenceUnchanged | utils/utils.py:81-82 | text without an occurrence of the pattern comes back unchanged |
| Replacement.ReplaceBySelf | utils/utils.py:81-82 | replacing a text by itself is the identity, the empty pattern included |
| Replacement.SameLengthReplacement | utils/utils.py:81-82 | a replacement of the pattern's length keeps the text's length |
| Replacement.ReplaceAtHead | utils/utils.py:81-82 | an occurrence at the head is replaced, and the scan resumes behind it without rescanning the replacement |
| Replacement.ReplaceSkips | utils/utils.py:81-82 | a prefix free of the pattern's first character passes through unchanged |
| App.ParseClock | main.py:71-72 | `strptime` fails exactly when the hour exceeds 23 or a minute or second exceeds 59; otherwise the fields are in range, the microseconds are whole milliseconds, and the clock's seconds equal the timestamp's value |
| App.ShiftStart | main.py:88-90 | the start moves back by the offset only when the result stays positive, and never moves later |
| App.ClipWindowAsWritten | main.py:75-90 | the window as written: the end adds the start's microseconds instead of its own |
| App.AsWrittenEndIsEndTime | main.py:81-86 | the as-written end equals the end timestamp's value exactly when both timestamps have the same microseconds |
| App.AsWrittenEndExample | main.py:81-86 | start 00:00:01.500 and end 00:00:02.000 give an end of 2.5 as written instead of 2.0 |
| App.ClipWindow | main.py:75-90 | the corrected window ends at the end timestamp's own value |
| App.ClipWindowSpansCues | main.py:71-90 | the corrected window ends at the value `convert_to_seconds` gives the end cue, and starts no later than the start cue |
| App.ClipFrames | main.py:92-100 | the sample indices are the truncations of the window's times times the sample rate |
| App.TruncatedAudio | main.py:100 | the clip runs from the start frame to the end frame, clamped at the audio's end, and is empty unless the start frame lies before both the end frame and the audio's end; its k-th sample is the audio's sample at the start frame plus k |
| App.ClipTranscriptTimeline | main.py:106-113 | read back with the window's start as the offset, the clip's transcript gives each row's speaker, and its times shifted onto the recording's timeline to within 0.005 |
| App.WithInterviewHeader | main.py:122-124 | the result is the whole header `Transcriptions for <speaker> as interviewee: ` and a blank line, then the transcription, and nothing else |
| App.TranscribeWholeRecording | main.py:126-133 | without a Zoom transcript the result is the diarized transcript of the whole recording, or the diarizer's error |

## Left out

- Model loading, `infer` and `load_audio` are parameters or not part of this model: the diarization turns, the waveform and the recogniser are inputs. This also covers the pyannote pipeline, transformers, librosa, resampling, the temporary WAV file, logging and `perf_counter`.
- `asr_inference_service/main.py` (the FastAPI service), `denoise.py`, `utils/audio_preprocessing.py`, the Gradio interface, `download_logic`, `timestamp_logic` and `read_txt_file` are not part of this model. The Zoom file's contents are a string parameter.
- Diarizer.Round3: CPython rounds the binary double, and `.2f`/`.3f` print its exact binary value. The model rounds the exact real half up, so an exact tie may differ by one unit in the last place.
- Every comparison and product on times is exact in the model and binary floating point in the source, so results at a boundary can differ. The duration test (asr_inference_service/diarizer.py:64) sees 0.563 - 0.063 as 0.49999999999999994, below a minimum of 0.5, where the model keeps the turn. The silence test (asr_inference_service/diarizer.py:69) has the same edge. `int(t * sr)` (asr_inference_service/model.py:173-174, main.py:100) gives 16079 for 1.005 s at 16000 Hz, where the model's FrameIndex gives 16080.
- All times are non-negative (`Seconds`). The source would accept negative float times, but neither the diarizer nor the cue timestamps produce them.
- ReferenceTranscript.ParseFloat: only plain decimal texts (`d+` or `d+.d+`) are accepted. Signs, exponents, `inf`/`nan`, surrounding whitespace and underscores are not modelled. `convert_to_seconds` is only ever applied to cue timestamps, which it fully covers.
- `\d` matches ASCII digits only. Python also accepts other Unicode decimal digits in str patterns.
- App.ParseClock: only the `HH:MM:SS.mmm` shape the cue readers return is modelled, not the full `strptime` grammar.
- Replacement.Replace: the replacement text is taken literally. `re.sub` would expand backslash escapes and group references in it.
- The helpers in `transcription_logic` do not fit together as called, and the model does not compose them:
  - main.py:41 and main.py:69 pass two arguments to the one-argument `get_timestamps_for_speaker`.
  - Its two-argument sibling returns pairs, but main.py:108-110 unpacks triples.
  - main.py:119-121 passes the resolved dictionary as the text to replace.
  
  Each step is modelled on its own.
- In minutes mode the transcript's times are minutes, but main.py:111-113 still adds an offset in seconds. App.ClipTranscriptTimeline is stated for the seconds mode only.
- SpeakerResolver.MostFrequentInList: `max(set(List), key=List.count)` returns some element of maximal count, and which one depends on the set's iteration order. The model states only the maximal count.
- The Zoom-transcript lemmas assume a well-formed transcript:
  - blocks of a cue line with single-space gaps, a name line and a blank line;
  - names made of ASCII letters and spaces that start with a letter;
  - utterances without digits or line breaks;
  - for the one-speaker reader, a speaker name without `:`.
  
  On other texts only the general scan contracts apply.
- Dictionary iteration order in `get_most_frequent_speaker` is not modelled: the result is a map, and its value per key does not depend on the order.

## Findings

| source | as written | input that shows it | evidently intended | confidence | as-written member | corrected member |
|---|---|---|---|---|---|---|
| main.py:81-86 | the end of the clip window adds the start timestamp's microseconds to the end timestamp's hours, minutes and seconds | start `00:00:01.500`, end `00:00:02.000`: the window ends at 2.5 s instead of 2.0 s | the end timestamp's own microseconds, so the window ends where the speaker's last cue ends | high (not executed) | App.ClipWindowAsWritten, App.AsWrittenEndExample | App.ClipWindow, App.ClipWindowSpansCues |
