/** `replacement_of_string_in_text` (utils/utils.py): `re.sub` with the pattern
    `re.escape(old_text)`, which matches `old_text` literally. The scan goes left
    to right; after a match it resumes behind it, so matches never overlap. An
    empty `old_text` matches the empty string at every position, the end
    included. */
module Replacement {
  import opened Text

  /** `replacementText` inserted before every character and at the end. */
  function InsertEverywhere(text: string, replacementText: string): (r: string)
    ensures |r| == |text| + (|text| + 1) * |replacementText|
    ensures forall c :: c in r ==> c in text || c in replacementText
  {
    if |text| == 0 then replacementText else replacementText + ([text[0]] + InsertEverywhere(text[1..], replacementText))
  }

  /** The replacement text is taken literally; see the README for templates.
      Every character of the result comes from the text or from the
      replacement, and a non-empty pattern never lengthens the text unless the
      replacement is longer than the pattern. */
  function Replace(text: string, oldText: string, replacementText: string): (r: string)
    ensures forall c :: c in r ==> c in text || c in replacementText
    ensures oldText != "" && |replacementText| <= |oldText| ==> |r| <= |text|
    decreases |text|
  {
    if oldText == "" then InsertEverywhere(text, replacementText)
    else if |text| == 0 then ""
    else if StartsWith(text, oldText) then replacementText + Replace(text[|oldText|..], oldText, replacementText)
    else [text[0]] + Replace(text[1..], oldText, replacementText)
  }

  /** `oldText` occurs in `text` at position `i`. */
  predicate OccursAt(text: string, oldText: string, i: nat) {
    i + |oldText| <= |text| && text[i..i + |oldText|] == oldText
  }

  /** Text in which `oldText` does not occur comes back unchanged. */
  lemma {:induction false} NoOccurrenceUnchanged(text: string, oldText: string, replacementText: string)
    requires oldText != ""
    requires forall i :: 0 <= i <= |text| ==> !OccursAt(text, oldText, i)
    ensures Replace(text, oldText, replacementText) == text
    decreases |text|
  {
    if |text| > 0 {
      assert !OccursAt(text, oldText, 0);
      assert !StartsWith(text, oldText);
      forall i | 0 <= i <= |text[1..]|
        ensures !OccursAt(text[1..], oldText, i)
      {
        assert !OccursAt(text, oldText, i + 1);
        if i + |oldText| <= |text[1..]| {
          assert text[1..][i..i + |oldText|] == text[i + 1..i + 1 + |oldText|];
        }
      }
      NoOccurrenceUnchanged(text[1..], oldText, replacementText);
      assert [text[0]] + text[1..] == text;
    }
  }

  /** Replacing a text by itself changes nothing, empty or not. */
  lemma {:induction false} ReplaceBySelf(text: string, oldText: string)
    ensures Replace(text, oldText, oldText) == text
    decreases |text|
  {
    if oldText == "" {
      InsertNothing(text);
    } else if |text| > 0 {
      if StartsWith(text, oldText) {
        ReplaceBySelf(text[|oldText|..], oldText);
        assert text[..|oldText|] + text[|oldText|..] == text;
      } else {
        ReplaceBySelf(text[1..], oldText);
        assert [text[0]] + text[1..] == text;
      }
    }
  }

  lemma {:induction false} InsertNothing(text: string)
    ensures InsertEverywhere(text, "") == text
  {
    if |text| > 0 {
      InsertNothing(text[1..]);
      assert [text[0]] + text[1..] == text;
    }
  }

  /** A replacement of the same length keeps the length of the text. */
  lemma {:induction false} SameLengthReplacement(text: string, oldText: string, replacementText: string)
    requires |replacementText| == |oldText|
    ensures |Replace(text, oldText, replacementText)| == |text|
    decreases |text|
  {
    if oldText != "" && |text| > 0 {
      if StartsWith(text, oldText) {
        SameLengthReplacement(text[|oldText|..], oldText, replacementText);
      } else {
        SameLengthReplacement(text[1..], oldText, replacementText);
      }
    }
  }

  /** An occurrence at the head is replaced, and the scan resumes behind it: the
      replacement itself is never scanned again. */
  lemma ReplaceAtHead(oldText: string, rest: string, replacementText: string)
    requires oldText != ""
    ensures Replace(oldText + rest, oldText, replacementText) == replacementText + Replace(rest, oldText, replacementText)
  {
    assert (oldText + rest)[..|oldText|] == oldText;
    assert (oldText + rest)[|oldText|..] == rest;
  }

  /** Text free of the searched string's first character passes through
      unchanged ahead of whatever follows it. */
  lemma {:induction false} ReplaceSkips(prefix: string, rest: string, oldText: string, replacementText: string)
    requires oldText != ""
    requires forall i :: 0 <= i < |prefix| ==> prefix[i] != oldText[0]
    ensures Replace(prefix + rest, oldText, replacementText) == prefix + Replace(rest, oldText, replacementText)
    decreases |prefix|
  {
    if |prefix| == 0 {
      assert prefix + rest == rest;
    } else {
      var s, done := prefix + rest, Replace(rest, oldText, replacementText);
      calc {
        Replace(s, oldText, replacementText);
        { assert s[0] == prefix[0];
          ReplacePassesOne(s, oldText, replacementText); }
        [s[0]] + Replace(s[1..], oldText, replacementText);
        { assert s[1..] == prefix[1..] + rest;
          ReplaceSkips(prefix[1..], rest, oldText, replacementText); }
        [prefix[0]] + (prefix[1..] + done);
        ([prefix[0]] + prefix[1..]) + done;
        { assert [prefix[0]] + prefix[1..] == prefix; }
        prefix + done;
      }
    }
  }

  /** A character that cannot start the searched string is copied as it is. */
  lemma ReplacePassesOne(s: string, oldText: string, replacementText: string)
    requires oldText != "" && |s| > 0 && s[0] != oldText[0]
    ensures Replace(s, oldText, replacementText) == [s[0]] + Replace(s[1..], oldText, replacementText)
  {
    assert !StartsWith(s, oldText) by {
      if |oldText| <= |s| {
        assert s[..|oldText|][0] == s[0];
      }
    }
  }

  /** The leftmost occurrence is the one replaced: the text before it is kept
      as it is, the occurrence becomes the replacement, and the scan resumes
      behind it. */
  lemma ReplaceLeftmost(prefix: string, rest: string, oldText: string, replacementText: string)
    requires oldText != ""
    requires forall i :: 0 <= i < |prefix| ==> !OccursAt(prefix + oldText + rest, oldText, i)
    ensures Replace(prefix + oldText + rest, oldText, replacementText)
            == prefix + replacementText + Replace(rest, oldText, replacementText)
  {
    var more, done := oldText + rest, Replace(rest, oldText, replacementText);
    assert prefix + oldText + rest == prefix + more;
    ReplaceKeepsPrefix(prefix, more, oldText, replacementText);
    ReplaceAtHead(oldText, rest, replacementText);
    assert prefix + (replacementText + done) == prefix + replacementText + done;
  }

  /** Text in which no occurrence starts is kept as it is, ahead of what the
      rest becomes, even where an occurrence straddles into the rest. */
  lemma {:induction false} ReplaceKeepsPrefix(prefix: string, more: string, oldText: string, replacementText: string)
    requires oldText != ""
    requires forall i :: 0 <= i < |prefix| ==> !OccursAt(prefix + more, oldText, i)
    ensures Replace(prefix + more, oldText, replacementText) == prefix + Replace(more, oldText, replacementText)
    decreases |prefix|
  {
    if |prefix| == 0 {
      assert prefix + more == more;
    } else {
      var done := Replace(more, oldText, replacementText);
      OccursShift(prefix, more, oldText);
      ReplaceKeepsPrefix(prefix[1..], more, oldText, replacementText);
      ReplaceKeepsHead(prefix, more, oldText, replacementText, prefix[1..] + done);
      HeadThenTail(prefix, done);
    }
  }

  /** A head character where no occurrence starts is kept ahead of what the
      rest becomes. */
  lemma ReplaceKeepsHead(prefix: string, more: string, oldText: string, replacementText: string, done: string)
    requires oldText != "" && |prefix| > 0 && !OccursAt(prefix + more, oldText, 0)
    requires Replace(prefix[1..] + more, oldText, replacementText) == done
    ensures Replace(prefix + more, oldText, replacementText) == [prefix[0]] + done
  {
    var s := prefix + more;
    ReplaceNoMatchHere(s, oldText, replacementText);
    assert s[1..] == prefix[1..] + more;
  }

  /** Without an occurrence at the head, the head character is copied. */
  lemma ReplaceNoMatchHere(s: string, oldText: string, replacementText: string)
    requires oldText != "" && |s| > 0 && !OccursAt(s, oldText, 0)
    ensures Replace(s, oldText, replacementText) == [s[0]] + Replace(s[1..], oldText, replacementText)
  {
    assert !StartsWith(s, oldText);
  }

  lemma HeadThenTail(a: string, b: string)
    requires |a| > 0
    ensures [a[0]] + (a[1..] + b) == a + b
  {
    assert [a[0]] + a[1..] == a;
    assert [a[0]] + (a[1..] + b) == ([a[0]] + a[1..]) + b;
  }

  /** Occurrences that start in `prefix[1..]` are those that start in
      `prefix`, one position earlier. */
  lemma OccursShift(prefix: string, more: string, oldText: string)
    requires |prefix| > 0
    requires forall i :: 0 <= i < |prefix| ==> !OccursAt(prefix + more, oldText, i)
    ensures forall i :: 0 <= i < |prefix| - 1 ==> !OccursAt(prefix[1..] + more, oldText, i)
  {
    var s, t := prefix + more, prefix[1..] + more;
    assert t == s[1..];
    forall i | 0 <= i < |prefix| - 1
      ensures !OccursAt(t, oldText, i)
    {
      assert !OccursAt(s, oldText, i + 1);
      if i + |oldText| <= |t| {
        assert t[i..i + |oldText|] == s[i + 1..i + 1 + |oldText|];
      }
    }
  }
}
