/** The identity resolver of utils/utils.py: `get_most_frequent_speaker`, which
    matches every midpoint of the reference transcript against the diarized
    segments that contain it and lets the names vote per diarization label, and
    `most_frequent_in_list`.

    The segments are what `convert_diar_string_to_list` returns and the
    midpoints what `convert_list_of_timestamps_to_seconds` returns. */
module SpeakerResolver {
  import opened Wrappers
  import TranscriptParser

  type Interval = TranscriptParser.Interval

  /** `[average_time, name]`: a midpoint of a reference cue and its speaker. */
  type Midpoint = (real, string)

  /** A recorded `[label, name]` pair. */
  type Pair = (string, string)

  /** `average_time[0] >= start and average_time[0] <= end`: inclusive at both ends. */
  predicate Contains(segment: Interval, t: real) {
    segment.start <= t <= segment.end
  }

  /** The pairs the inner loop records for one midpoint: one per segment that
      contains it, in segment order. */
  function PairsAt(segments: seq<Interval>, a: Midpoint): (ps: seq<Pair>)
    ensures |ps| <= |segments|
    ensures forall k :: 0 <= k < |ps| ==> ps[k].1 == a.1
  {
    if |segments| == 0 then []
    else
      var last := segments[|segments| - 1];
      PairsAt(segments[..|segments| - 1], a) + (if Contains(last, a.0) then [(last.speaker, a.1)] else [])
  }

  /** `final_speakers` after both loops: midpoint by midpoint, segment by segment. */
  function Pairs(segments: seq<Interval>, averages: seq<Midpoint>): (ps: seq<Pair>)
    ensures |ps| <= |segments| * |averages|
  {
    if |averages| == 0 then []
    else
      var n := |averages| - 1;
      assert |segments| * n + |segments| == |segments| * |averages|;
      Pairs(segments, averages[..n]) + PairsAt(segments, averages[n])
  }

  lemma {:induction false} PairsAtRecorded(segments: seq<Interval>, a: Midpoint, j: nat)
    requires j < |segments| && Contains(segments[j], a.0)
    ensures (segments[j].speaker, a.1) in PairsAt(segments, a)
    decreases |segments|
  {
    var n := |segments| - 1;
    if j < n {
      assert segments[..n][j] == segments[j];
      PairsAtRecorded(segments[..n], a, j);
    }
  }

  /** Every segment that contains a midpoint records a pair, even when an earlier
      segment already contained it: the `continue` does not end the inner scan. */
  lemma {:induction false} PairRecorded(segments: seq<Interval>, averages: seq<Midpoint>, i: nat, j: nat)
    requires i < |averages| && j < |segments|
    requires Contains(segments[j], averages[i].0)
    ensures (segments[j].speaker, averages[i].1) in Pairs(segments, averages)
    decreases |averages|
  {
    var n, p := |averages| - 1, (segments[j].speaker, averages[i].1);
    var earlier, last := Pairs(segments, averages[..n]), PairsAt(segments, averages[n]);
    assert Pairs(segments, averages) == earlier + last;
    if i == n {
      PairsAtRecorded(segments, averages[i], j);
      assert p in last;
    } else {
      assert averages[..n][i] == averages[i];
      PairRecorded(segments, averages[..n], i, j);
      assert p in earlier;
    }
  }

  lemma {:induction false} PairsAtJustified(segments: seq<Interval>, a: Midpoint, p: Pair)
    requires p in PairsAt(segments, a)
    ensures exists j :: 0 <= j < |segments| && Contains(segments[j], a.0) && p == (segments[j].speaker, a.1)
    decreases |segments|
  {
    var n := |segments| - 1;
    if p in PairsAt(segments[..n], a) {
      PairsAtJustified(segments[..n], a, p);
      var j :| 0 <= j < n && Contains(segments[..n][j], a.0) && p == (segments[..n][j].speaker, a.1);
      assert segments[..n][j] == segments[j];
    } else {
      assert Contains(segments[n], a.0) && p == (segments[n].speaker, a.1);
    }
  }

  /** Conversely, every recorded pair comes from a segment that contains a
      midpoint: the segment's label and the midpoint's name. */
  lemma {:induction false} PairJustified(segments: seq<Interval>, averages: seq<Midpoint>, p: Pair)
    requires p in Pairs(segments, averages)
    ensures exists i, j :: && 0 <= i < |averages| && 0 <= j < |segments|
                           && Contains(segments[j], averages[i].0) && p == (segments[j].speaker, averages[i].1)
    decreases |averages|
  {
    var n := |averages| - 1;
    if p in Pairs(segments, averages[..n]) {
      PairJustified(segments, averages[..n], p);
      var i, j :| && 0 <= i < n && 0 <= j < |segments|
                  && Contains(segments[j], averages[..n][i].0) && p == (segments[j].speaker, averages[..n][i].1);
      assert averages[..n][i] == averages[i];
    } else {
      PairsAtJustified(segments, averages[n], p);
    }
  }

  /** The labels that received at least one pair. */
  function Labels(pairs: seq<Pair>): set<string>
  {
    set p | p in pairs :: p.0
  }

  /** `speaker_names[label]`: the names recorded for a label, in order. Each name
      occurs in it as often as its pair was recorded. */
  function NamesFor(pairs: seq<Pair>, speaker: string): (names: seq<string>)
    ensures |names| == 0 <==> speaker !in Labels(pairs)
  {
    if |pairs| == 0 then []
    else
      var init, last := pairs[..|pairs| - 1], pairs[|pairs| - 1];
      assert pairs == init + [last];
      var names := NamesFor(init, speaker) + (if last.0 == speaker then [last.1] else []);
      assert Labels(pairs) == Labels(init) + {last.0};
      names
  }

  /** Each name occurs in the label's list as often as its pair was recorded. */
  lemma {:induction false} NamesForCounts(pairs: seq<Pair>, speaker: string, n: string)
    ensures multiset(NamesFor(pairs, speaker))[n] == multiset(pairs)[(speaker, n)]
  {
    if |pairs| > 0 {
      var init, last := pairs[..|pairs| - 1], pairs[|pairs| - 1];
      assert pairs == init + [last];
      NamesForCounts(init, speaker, n);
    }
  }

  /** How often `x` occurs in `xs`: `List.count(x)`, and what `Counter` counts. */
  function Count<T(==)>(xs: seq<T>, x: T): nat
  {
    multiset(xs)[x]
  }

  /** The scan behind `Counter(xs).most_common(1)`: a `Counter` keeps its keys in
      the order they first occur, and `most_common(1)` takes the first key of
      maximal count. `best` is the leader among `xs[..i]`. */
  function Leader<T(==)>(xs: seq<T>, i: nat, best: nat): (k: nat)
    requires best < i <= |xs|
    requires forall j :: 0 <= j < i ==> Count(xs, xs[j]) <= Count(xs, xs[best])
    requires forall j :: 0 <= j < best ==> Count(xs, xs[j]) < Count(xs, xs[best])
    ensures k < |xs|
    ensures forall j :: 0 <= j < |xs| ==> Count(xs, xs[j]) <= Count(xs, xs[k])
    ensures forall j :: 0 <= j < k ==> Count(xs, xs[j]) < Count(xs, xs[k])
    decreases |xs| - i
  {
    if i == |xs| then best
    else if Count(xs, xs[i]) > Count(xs, xs[best]) then Leader(xs, i + 1, i)
    else Leader(xs, i + 1, best)
  }

  /** `Counter(xs).most_common(1)[0][0]`: one of the votes, and no other vote
      is counted more often. */
  function MostCommon<T(==)>(xs: seq<T>): (m: T)
    requires |xs| > 0
    ensures m in xs
    ensures forall j :: 0 <= j < |xs| ==> Count(xs, xs[j]) <= Count(xs, m)
  {
    xs[Leader(xs, 1, 0)]
  }

  /** The error `max` raises on an empty argument. */
  datatype MaxError = ValueError

  /** `most_frequent_in_list`: `max(set(xs), key=xs.count)`. Which of several
      elements of maximal count comes out depends on the iteration order of a
      Python set, which is unspecified; this model returns the first one. */
  function MostFrequentInList<T(==)>(xs: seq<T>): (r: Result<T, MaxError>)
    ensures r.Failure? <==> |xs| == 0
    ensures r.Success? ==> r.value in xs && forall j :: 0 <= j < |xs| ==> Count(xs, xs[j]) <= Count(xs, r.value)
  {
    if |xs| == 0 then Failure(ValueError)
    else
        Success(MostCommon(xs))
  }

  /** `speaker_most_common`: for every label with at least one pair, the name its
      pairs name most often. */
  function Resolve(segments: seq<Interval>, averages: seq<Midpoint>): (m: map<string, string>)
    ensures m.Keys == Labels(Pairs(segments, averages))
  {
    var pairs := Pairs(segments, averages);
    map speaker | speaker in Labels(pairs) :: MostCommon(NamesFor(pairs, speaker))
  }

  /** The names recorded up to a point come first in a label's list. */
  lemma {:induction false} NamesForPrefix(pairs: seq<Pair>, speaker: string, m: nat)
    requires m <= |pairs|
    ensures NamesFor(pairs[..m], speaker) <= NamesFor(pairs, speaker)
  {
    if m < |pairs| {
      var init := pairs[..|pairs| - 1];
      assert init[..m] == pairs[..m];
      NamesForPrefix(init, speaker, m);
    } else {
      assert pairs[..m] == pairs;
    }
  }

  /** What the resolver elects for a label: a name recorded for it, recorded at
      least as often as any other name for that label, and of the names
      recorded as often the one whose first pair came first. */
  lemma ResolveElects(segments: seq<Interval>, averages: seq<Midpoint>, speaker: string)
    requires speaker in Resolve(segments, averages)
    ensures var pairs, elected := Pairs(segments, averages), Resolve(segments, averages)[speaker];
            && (speaker, elected) in pairs
            && (forall n :: multiset(pairs)[(speaker, n)] <= multiset(pairs)[(speaker, elected)])
            && (forall i :: 0 <= i < |pairs| && pairs[i].0 == speaker && multiset(pairs)[pairs[i]] == multiset(pairs)[(speaker, elected)]
                  ==> (speaker, elected) in pairs[..i + 1])
  {
    var pairs := Pairs(segments, averages);
    var names := NamesFor(pairs, speaker);
    var elected := MostCommon(names);
    assert Resolve(segments, averages)[speaker] == elected;
    NamesForCounts(pairs, speaker, elected);
    forall n
      ensures multiset(pairs)[(speaker, n)] <= multiset(pairs)[(speaker, elected)]
    {
      NamesForCounts(pairs, speaker, n);
      if n in names {
        var j :| 0 <= j < |names| && names[j] == n;
      }
    }
    forall i | 0 <= i < |pairs| && pairs[i].0 == speaker && multiset(pairs)[pairs[i]] == multiset(pairs)[(speaker, elected)]
      ensures (speaker, elected) in pairs[..i + 1]
    {
      ElectedBy(pairs, speaker, i);
    }
  }

  /** The tie-break, one recorded pair at a time. */
  /** The pair recorded at `i` is the last vote of the label's list up to `i`. */
  lemma NameOfPair(pairs: seq<Pair>, speaker: string, i: nat)
    requires i < |pairs| && pairs[i].0 == speaker
    ensures var upTo := NamesFor(pairs[..i + 1], speaker);
            && |upTo| > 0 && upTo[|upTo| - 1] == pairs[i].1
            && upTo <= NamesFor(pairs, speaker)
  {
    assert pairs[..i + 1][..i] == pairs[..i];
    NamesForPrefix(pairs, speaker, i + 1);
  }

  lemma ElectedBy(pairs: seq<Pair>, speaker: string, i: nat)
    requires i < |pairs| && pairs[i].0 == speaker
    requires speaker in Labels(pairs)
    requires multiset(pairs)[pairs[i]] == multiset(pairs)[(speaker, MostCommon(NamesFor(pairs, speaker)))]
    ensures (speaker, MostCommon(NamesFor(pairs, speaker))) in pairs[..i + 1]
  {
    var names := NamesFor(pairs, speaker);
    var elected := MostCommon(names);
    var upTo := NamesFor(pairs[..i + 1], speaker);
    NameOfPair(pairs, speaker, i);
    assert Count(names, pairs[i].1) == Count(names, elected) by {
      NamesForCounts(pairs, speaker, pairs[i].1);
      NamesForCounts(pairs, speaker, elected);
    }
    TiedLater(names, upTo);
    assert multiset(upTo)[elected] > 0;
    NamesForCounts(pairs[..i + 1], speaker, elected);
  }

  /** A vote counted as often as the elected one and cast at the end of a
      prefix: the elected name was cast within that prefix. */
  lemma TiedLater<T>(xs: seq<T>, prefix: seq<T>)
    requires 0 < |prefix| && prefix <= xs
    requires Count(xs, prefix[|prefix| - 1]) == Count(xs, MostCommon(xs))
    ensures MostCommon(xs) in prefix
  {
    var j, k := |prefix| - 1, Leader(xs, 1, 0);
    assert xs[j] == prefix[j] && xs[..j + 1] == prefix;
    assert k <= j && prefix[k] == xs[k];
  }

  /** When every pair recorded for a label names the same person, the label
      resolves to that person. */
  lemma UnanimousLabel(segments: seq<Interval>, averages: seq<Midpoint>, speaker: string, name: string)
    requires speaker in Resolve(segments, averages)
    requires forall p :: p in Pairs(segments, averages) && p.0 == speaker ==> p.1 == name
    ensures Resolve(segments, averages)[speaker] == name
  {
    ResolveElects(segments, averages, speaker);
  }

  lemma {:induction false} NoContainingSegment(segments: seq<Interval>, a: Midpoint)
    requires forall j :: 0 <= j < |segments| ==> !Contains(segments[j], a.0)
    ensures PairsAt(segments, a) == []
  {
    if |segments| > 0 {
      NoContainingSegment(segments[..|segments| - 1], a);
    }
  }

  /** A reference midpoint that falls in no diarized segment changes nothing. */
  lemma UncoveredMidpoint(segments: seq<Interval>, averages: seq<Midpoint>, a: Midpoint)
    requires forall j :: 0 <= j < |segments| ==> !Contains(segments[j], a.0)
    ensures Resolve(segments, averages + [a]) == Resolve(segments, averages)
  {
    NoContainingSegment(segments, a);
    assert (averages + [a])[..|averages|] == averages;
    assert Pairs(segments, averages + [a]) == Pairs(segments, averages);
  }

  /** `get_most_frequent_speaker`. */
  method GetMostFrequentSpeaker(transcriptionTimeSegments: seq<Interval>, averageActualTimeSec: seq<Midpoint>)
    returns (speakerMostCommon: map<string, string>)
    ensures speakerMostCommon == Resolve(transcriptionTimeSegments, averageActualTimeSec)
  {
    var finalSpeakers := RecordPairs(transcriptionTimeSegments, averageActualTimeSec);
    var speakerNames := GroupNames(finalSpeakers);
    speakerMostCommon := Vote(speakerNames);
  }

  /** The two nested loops that fill `final_speakers`. */
  method RecordPairs(segments: seq<Interval>, averages: seq<Midpoint>) returns (finalSpeakers: seq<Pair>)
    ensures finalSpeakers == Pairs(segments, averages)
  {
    finalSpeakers := [];
    for a := 0 to |averages|
      invariant finalSpeakers == Pairs(segments, averages[..a])
    {
      var averageTime := averages[a];
      for s := 0 to |segments|
        invariant finalSpeakers == Pairs(segments, averages[..a]) + PairsAt(segments[..s], averageTime)
      {
        var segment := segments[s];
        assert segments[..s + 1][..s] == segments[..s];
        if averageTime.0 >= segment.start && averageTime.0 <= segment.end {
          finalSpeakers := finalSpeakers + [(segment.speaker, averageTime.1)];
        }
      }
      assert segments[..|segments|] == segments;
      assert averages[..a + 1][..a] == averages[..a];
    }
    assert averages[..|averages|] == averages;
  }

  /** The loop that fills the `defaultdict(list)` `speaker_names`. */
  method GroupNames(finalSpeakers: seq<Pair>) returns (speakerNames: map<string, seq<string>>)
    ensures speakerNames.Keys == Labels(finalSpeakers)
    ensures forall l :: l in speakerNames ==> speakerNames[l] == NamesFor(finalSpeakers, l)
  {
    speakerNames := map[];
    for i := 0 to |finalSpeakers|
      invariant speakerNames.Keys == Labels(finalSpeakers[..i])
      invariant forall l :: l in speakerNames ==> speakerNames[l] == NamesFor(finalSpeakers[..i], l)
    {
      var (speaker, name) := finalSpeakers[i];
      GroupUpdate(finalSpeakers, i, speakerNames);
      speakerNames := speakerNames[speaker := (if speaker in speakerNames then speakerNames[speaker] else []) + [name]];
    }
    assert finalSpeakers[..|finalSpeakers|] == finalSpeakers;
  }

  /** The dictionary update of one iteration keeps the grouping exact. */
  lemma GroupUpdate(pairs: seq<Pair>, i: nat, m: map<string, seq<string>>)
    requires i < |pairs|
    requires m.Keys == Labels(pairs[..i])
    requires forall l :: l in m ==> m[l] == NamesFor(pairs[..i], l)
    ensures var m' := m[pairs[i].0 := (if pairs[i].0 in m then m[pairs[i].0] else []) + [pairs[i].1]];
            && m'.Keys == Labels(pairs[..i + 1])
            && forall l :: l in m' ==> m'[l] == NamesFor(pairs[..i + 1], l)
  {
    GroupNext(pairs, i);
  }

  /** One more pair adds its label, and its name to that label's names only. */
  lemma GroupNext(pairs: seq<Pair>, i: nat)
    requires i < |pairs|
    ensures Labels(pairs[..i + 1]) == Labels(pairs[..i]) + {pairs[i].0}
    ensures forall l :: NamesFor(pairs[..i + 1], l) == NamesFor(pairs[..i], l) + (if pairs[i].0 == l then [pairs[i].1] else [])
  {
    assert pairs[..i + 1][..i] == pairs[..i];
    assert pairs[..i + 1] == pairs[..i] + [pairs[i]];
  }

  /** The loop over `speaker_names.items()`. It visits the labels in insertion
      order; the order does not matter, as each label's entry depends on that
      label's names alone. */
  method Vote(speakerNames: map<string, seq<string>>) returns (speakerMostCommon: map<string, string>)
    requires forall l :: l in speakerNames ==> |speakerNames[l]| > 0
    ensures speakerMostCommon.Keys == speakerNames.Keys
    ensures forall l :: l in speakerMostCommon ==> speakerMostCommon[l] == MostCommon(speakerNames[l])
  {
    speakerMostCommon := map[];
    var remaining := speakerNames.Keys;
    while remaining != {}
      invariant remaining <= speakerNames.Keys
      invariant speakerMostCommon.Keys == speakerNames.Keys - remaining
      invariant forall l :: l in speakerMostCommon ==> speakerMostCommon[l] == MostCommon(speakerNames[l])
      decreases remaining
    {
      var speaker :| speaker in remaining;
      var names := speakerNames[speaker];
      speakerMostCommon := speakerMostCommon[speaker := MostCommon(names)];
      remaining := remaining - {speaker};
    }
  }
}
