/** `clean_transcript` of src/utils/text_processing.py: three
    regular-expression substitutions applied in turn.
    Each substitution is modelled as Python's `re.sub` scans: from left to
    right, at every position either the pattern matches there and the match is
    dropped, or one character is copied and the scan moves on. All three
    patterns are greedy runs over disjoint character classes, so a match, when
    there is one, is unique and is found by measuring maximal runs. */
module Transcript {
  import opened CharClasses
  import opened Whitespace

  /** One or more characters, all digits: what `\d+` matches. */
  predicate IsDigits(s: string) {
    s != [] && forall i :: 0 <= i < |s| ==> IsDigit(s[i])
  }

  /** The text `[h:m:s]` of a bracketed timestamp. */
  function Stamp(h: string, m: string, sec: string): string {
    "[" + h + ":" + m + ":" + sec + "]"
  }

  /** `t` is matched in full by the pattern `\[\d+:\d+:\d+\]`. */
  ghost predicate IsStamp(t: string) {
    exists h, m, sec :: IsDigits(h) && IsDigits(m) && IsDigits(sec) && t == Stamp(h, m, sec)
  }

  /** The text `ws name ws' :` of a speaker label. */
  function Label(lead: string, name: string, trail: string): string {
    lead + name + trail + ":"
  }

  /** `t` is matched in full by the pattern `\s*\w+\s*:`. */
  ghost predicate IsLabel(t: string) {
    exists lead, name, trail :: AllSpace(lead) && IsWordRun(name) && AllSpace(trail) && t == Label(lead, name, trail)
  }

  /** Length of the match of `\d+` followed by `delim` at index `from` of `s`,
      or 0 when there is none. */
  function DigitsThen(s: string, from: nat, delim: char): (n: nat)
    requires from <= |s|
    ensures from + n <= |s|
    ensures n == 1 + Span(IsDigit, s, from) || n == 0
  {
    var d := Span(IsDigit, s, from);
    if d > 0 && from + d < |s| && s[from + d] == delim then d + 1 else 0
  }

  /** Every match is a group of digits followed by `delim`. */
  lemma DigitsThenSound(s: string, from: nat, delim: char)
    requires from <= |s| && DigitsThen(s, from, delim) > 0
    ensures var n := DigitsThen(s, from, delim);
      n >= 2 && IsDigits(s[from..from + n - 1]) && s[from + n - 1] == delim
  {
    var run := SpanSlice(IsDigit, s, from);
  }

  /** A group of digits `x` right after `pre` and followed by `delim` is
      matched in full. */
  lemma DigitsThenMatched(pre: string, x: string, delim: char, u: string)
    requires IsDigits(x) && !IsDigit(delim)
    ensures DigitsThen(pre + x + ([delim] + u), |pre|, delim) == |x| + 1
  {
    SpanMiddle(IsDigit, pre, x, [delim] + u);
    assert (pre + x + ([delim] + u))[|pre| + |x|] == delim;
  }

  /** Length of the match of `\[\d+:\d+:\d+\]` at the front of `s`, or 0 when
      the pattern does not match there. */
  function TimestampLength(s: string): (n: nat)
    ensures n <= |s|
    ensures n > 0 ==> s[0] == '['
  {
    if s == [] || s[0] != '[' then 0
    else
      var a := DigitsThen(s, 1, ':');
      if a == 0 then 0
      else
        var b := DigitsThen(s, 1 + a, ':');
        if b == 0 then 0
        else
          var c := DigitsThen(s, 1 + a + b, ']');
          if c == 0 then 0 else 1 + a + b + c
  }

  /** Cutting a prefix of `s` into a bracket, three delimited groups and the
      delimiters after them. */
  lemma CutIntoGroups(s: string, a: nat, b: nat, c: nat)
    requires 1 <= a && 1 <= b && 1 <= c && 1 + a + b + c <= |s|
    ensures s[..1 + a + b + c]
         == [s[0]] + s[1..a] + [s[a]] + s[1 + a..a + b] + [s[a + b]] + s[1 + a + b..a + b + c] + [s[a + b + c]]
  {
  }

  /** A prefix with the brackets and colons of a timestamp in place is the
      timestamp of its three groups. */
  lemma CutIntoStamp(s: string, a: nat, b: nat, c: nat)
    requires 1 <= a && 1 <= b && 1 <= c && 1 + a + b + c <= |s|
    requires s[0] == '[' && s[a] == ':' && s[a + b] == ':' && s[a + b + c] == ']'
    ensures s[..1 + a + b + c] == Stamp(s[1..a], s[1 + a..a + b], s[1 + a + b..a + b + c])
  {
    CutIntoGroups(s, a, b, c);
  }

  /** Every match is a timestamp. */
  lemma TimestampLengthSound(s: string)
    requires TimestampLength(s) > 0
    ensures IsStamp(s[..TimestampLength(s)])
  {
    var a := DigitsThen(s, 1, ':');
    var b := DigitsThen(s, 1 + a, ':');
    var c := DigitsThen(s, 1 + a + b, ']');
    assert TimestampLength(s) == 1 + a + b + c;
    DigitsThenSound(s, 1, ':');
    DigitsThenSound(s, 1 + a, ':');
    DigitsThenSound(s, 1 + a + b, ']');
    CutIntoStamp(s, a, b, c);
  }

  /** Conversely, a timestamp at the front of `s` is matched in full. */
  lemma TimestampMatched(h: string, m: string, sec: string, rest: string)
    requires IsDigits(h) && IsDigits(m) && IsDigits(sec)
    ensures TimestampLength(Stamp(h, m, sec) + rest) == |Stamp(h, m, sec)|
  {
    var s := Stamp(h, m, sec) + rest;
    StampGroups(h, m, sec, rest);
    assert s[0] == '[';
  }

  /** The three groups of a timestamp are matched in full. */
  lemma StampGroups(h: string, m: string, sec: string, rest: string)
    requires IsDigits(h) && IsDigits(m) && IsDigits(sec)
    ensures DigitsThen(Stamp(h, m, sec) + rest, 1, ':') == |h| + 1
    ensures DigitsThen(Stamp(h, m, sec) + rest, |h| + 2, ':') == |m| + 1
    ensures DigitsThen(Stamp(h, m, sec) + rest, |h| + |m| + 3, ']') == |sec| + 1
  {
    StampFirstGroup(h, m, sec, rest);
    StampSecondGroup(h, m, sec, rest);
    StampThirdGroup(h, m, sec, rest);
  }

  lemma StampFirstGroup(h: string, m: string, sec: string, rest: string)
    requires IsDigits(h)
    ensures DigitsThen(Stamp(h, m, sec) + rest, 1, ':') == |h| + 1
  {
    var u := m + ":" + sec + "]" + rest;
    assert Stamp(h, m, sec) + rest == "[" + h + ([':'] + u);
    DigitsThenMatched("[", h, ':', u);
  }

  lemma StampSecondGroup(h: string, m: string, sec: string, rest: string)
    requires IsDigits(m)
    ensures DigitsThen(Stamp(h, m, sec) + rest, |h| + 2, ':') == |m| + 1
  {
    var u := sec + "]" + rest;
    assert Stamp(h, m, sec) + rest == ("[" + h + ":") + m + ([':'] + u);
    DigitsThenMatched("[" + h + ":", m, ':', u);
  }

  lemma StampThirdGroup(h: string, m: string, sec: string, rest: string)
    requires IsDigits(sec)
    ensures DigitsThen(Stamp(h, m, sec) + rest, |h| + |m| + 3, ']') == |sec| + 1
  {
    assert Stamp(h, m, sec) + rest == ("[" + h + ":" + m + ":") + sec + ([']'] + rest);
    DigitsThenMatched("[" + h + ":" + m + ":", sec, ']', rest);
  }

  /** Line 23, `re.sub(r"\[\d+:\d+:\d+\]", "", s)`. */
  function RemoveTimestamps(s: string): (r: string)
    ensures |r| <= |s|
    decreases |s|
  {
    if s == [] then []
    else if TimestampLength(s) > 0 then RemoveTimestamps(s[TimestampLength(s)..])
    else [s[0]] + RemoveTimestamps(s[1..])
  }

  /** A timestamp is removed. */
  lemma RemoveTimestampsDropsStamp(h: string, m: string, sec: string, rest: string)
    requires IsDigits(h) && IsDigits(m) && IsDigits(sec)
    ensures RemoveTimestamps(Stamp(h, m, sec) + rest) == RemoveTimestamps(rest)
  {
    TimestampMatched(h, m, sec, rest);
    assert (Stamp(h, m, sec) + rest)[|Stamp(h, m, sec)|..] == rest;
  }

  /** The scan's test at the front of `s` agrees with the timestamps: it
      reports a match exactly when one is there. */
  lemma StampAtFront(s: string)
    ensures TimestampLength(s) > 0 ==> IsStamp(s[..TimestampLength(s)])
  {
    if TimestampLength(s) > 0 {
      TimestampLengthSound(s);
    }
  }

  /** No timestamp starts at the front of `s`: no prefix of it is one. */
  ghost predicate NoStampAtFront(s: string) {
    forall k :: 0 < k <= |s| ==> !IsStamp(s[..k])
  }

  /** Where no timestamp starts, nothing is removed: a `[` that does not open
      a whole `[h:m:s]` (such as `[12:34]` or `[music]`) is copied like any
      other character, and the scan moves on by one. */
  lemma RemoveTimestampsKeepsNonStamp(s: string)
    requires s != []
    requires NoStampAtFront(s)
    ensures RemoveTimestamps(s) == [s[0]] + RemoveTimestamps(s[1..])
  {
    StampAtFront(s);
  }

  /** A character other than an opening bracket is copied. */
  lemma RemoveTimestampsCopiesOne(s: string)
    requires s != [] && s[0] != '['
    ensures RemoveTimestamps(s) == [s[0]] + RemoveTimestamps(s[1..])
  {
  }

  /** Text without an opening bracket is copied, and the scan carries on after it. */
  lemma {:induction false} RemoveTimestampsCopiesPlain(a: string, b: string)
    requires '[' !in a
    ensures RemoveTimestamps(a + b) == a + RemoveTimestamps(b)
  {
    if a == [] {
      assert a + b == b;
    } else {
      var s := a + b;
      assert a[0] in a;
      assert '[' !in a[1..] by {
        assert forall x :: x in a[1..] ==> x in a;
      }
      assert s[0] == a[0];
      assert s[1..] == a[1..] + b;
      RemoveTimestampsCopiesOne(s);
      RemoveTimestampsCopiesPlain(a[1..], b);
      var t := RemoveTimestamps(b);
      assert [a[0]] + (a[1..] + t) == ([a[0]] + a[1..]) + t;
      assert [a[0]] + a[1..] == a;
    }
  }

  /** A text without an opening bracket has no timestamp to remove. */
  lemma {:induction false} RemoveTimestampsNoBracket(s: string)
    requires '[' !in s
    ensures RemoveTimestamps(s) == s
  {
    RemoveTimestampsCopiesPlain(s, []);
    assert s + [] == s;
  }

  /** Length of the match of `\s*\w+\s*:` at the front of `s`, or 0 when the
      pattern does not match there. */
  function LabelLength(s: string): (n: nat)
    ensures n <= |s|
    ensures n > 0 ==> s[n - 1] == ':'
  {
    var a := Span(IsSpace, s, 0);
    var b := Span(IsWord, s, a);
    if b == 0 then 0
    else
      var c := Span(IsSpace, s, a + b);
      var e := a + b + c;  // where the ':' must be
      if e < |s| && s[e] == ':' then e + 1 else 0
  }

  /** A run of word characters, as a slice. */
  lemma NameRun(s: string, from: nat)
    requires from < |s| && IsWord(s[from])
    ensures IsWordRun(s[from..from + Span(IsWord, s, from)])
  {
    var run := SpanSlice(IsWord, s, from);
  }

  /** Cutting a prefix of `s` that ends in ':' into the three runs of a label. */
  lemma CutIntoLabel(s: string, a: nat, b: nat, c: nat)
    requires a + b + c < |s| && s[a + b + c] == ':'
    ensures s[..a + b + c + 1] == Label(s[..a], s[a..a + b], s[a + b..a + b + c])
  {
    assert s[..a + b + c + 1] == s[..a] + s[a..a + b] + s[a + b..a + b + c] + [s[a + b + c]];
  }

  /** Every match is a speaker label. */
  lemma LabelLengthSound(s: string)
    requires LabelLength(s) > 0
    ensures IsLabel(s[..LabelLength(s)])
  {
    var a := Span(IsSpace, s, 0);
    var b := Span(IsWord, s, a);
    var c := Span(IsSpace, s, a + b);
    assert LabelLength(s) == a + b + c + 1;
    LeadingSpaceRun(s);
    NameRun(s, a);
    SpaceRun(s, a + b);
    LabelOfRuns(s, a, b, c);
  }

  /** Three runs of the right classes and a colon make a label. */
  lemma LabelOfRuns(s: string, a: nat, b: nat, c: nat)
    requires a + b + c < |s| && s[a + b + c] == ':'
    requires AllSpace(s[..a]) && IsWordRun(s[a..a + b]) && AllSpace(s[a + b..a + b + c])
    ensures IsLabel(s[..a + b + c + 1])
  {
    CutIntoLabel(s, a, b, c);
    var lead, name, trail := s[..a], s[a..a + b], s[a + b..a + b + c];
    assert s[..a + b + c + 1] == Label(lead, name, trail);
  }

  /** The leading whitespace run of a label is its `lead`. */
  lemma LabelLeadSpan(lead: string, name: string, trail: string, rest: string)
    requires AllSpace(lead) && IsWordRun(name)
    ensures Span(IsSpace, Label(lead, name, trail) + rest, 0) == |lead|
  {
    var u := name + trail + ":" + rest;
    assert Label(lead, name, trail) + rest == [] + lead + u;
    SpanMiddle(IsSpace, [], lead, u);
  }

  /** The word run of a label is its `name`. */
  lemma LabelNameSpan(lead: string, name: string, trail: string, rest: string)
    requires AllSpace(trail) && IsWordRun(name)
    ensures Span(IsWord, Label(lead, name, trail) + rest, |lead|) == |name|
  {
    var u := trail + ":" + rest;
    assert Label(lead, name, trail) + rest == lead + name + u;
    SpanMiddle(IsWord, lead, name, u);
  }

  /** The whitespace run after the name is `trail`, and a ':' follows it. */
  lemma LabelTrailSpan(lead: string, name: string, trail: string, rest: string)
    requires AllSpace(trail)
    ensures Span(IsSpace, Label(lead, name, trail) + rest, |lead| + |name|) == |trail|
    ensures (Label(lead, name, trail) + rest)[|lead| + |name| + |trail|] == ':'
  {
    var u := ":" + rest;
    assert Label(lead, name, trail) + rest == lead + name + trail + u;
    SpanMiddle(IsSpace, lead + name, trail, u);
  }

  /** Conversely, a speaker label at the front of `s` is matched in full. */
  lemma LabelMatched(lead: string, name: string, trail: string, rest: string)
    requires AllSpace(lead) && IsWordRun(name) && AllSpace(trail)
    ensures LabelLength(Label(lead, name, trail) + rest) == |Label(lead, name, trail)|
  {
    LabelLeadSpan(lead, name, trail, rest);
    LabelNameSpan(lead, name, trail, rest);
    LabelTrailSpan(lead, name, trail, rest);
  }

  /** Line 25, `re.sub(r"^\s*\w+\s*:", "", s, flags=re.MULTILINE)`.
      `atLineStart` says whether `^` matches at the front of `s`: at the start
      of the text, or right after a newline. A match always ends in ':', so the
      scan never resumes at a line start after a removal. */
  function RemoveSpeakerLabels(s: string, atLineStart: bool): (r: string)
    ensures |r| <= |s|
    decreases |s|
  {
    if s == [] then []
    else if atLineStart && LabelLength(s) > 0 then RemoveSpeakerLabels(s[LabelLength(s)..], false)
    else [s[0]] + RemoveSpeakerLabels(s[1..], s[0] == '\n')
  }

  /** A speaker label at the start of a line is removed. */
  lemma RemoveSpeakerLabelsDropsLabel(lead: string, name: string, trail: string, rest: string)
    requires AllSpace(lead) && IsWordRun(name) && AllSpace(trail)
    ensures RemoveSpeakerLabels(Label(lead, name, trail) + rest, true) == RemoveSpeakerLabels(rest, false)
  {
    LabelMatched(lead, name, trail, rest);
    assert (Label(lead, name, trail) + rest)[|Label(lead, name, trail)|..] == rest;
  }

  /** Every match contains a colon. */
  lemma LabelNeedsColon(s: string)
    ensures LabelLength(s) > 0 ==> ':' in s
  {
    if LabelLength(s) > 0 {
      assert s[LabelLength(s) - 1] in s;
    }
  }

  /** A text without a colon has no speaker label to remove. */
  lemma {:induction false} RemoveSpeakerLabelsNoColon(s: string, atLineStart: bool)
    requires ':' !in s
    ensures RemoveSpeakerLabels(s, atLineStart) == s
    decreases |s|
  {
    if s != [] {
      LabelNeedsColon(s);
      assert s[0] in s;
      assert forall x :: x in s[1..] ==> x in s;
      RemoveSpeakerLabelsNoColon(s[1..], s[0] == '\n');
      assert s == [s[0]] + s[1..];
    }
  }

  /** The scan's test at the front of `s` agrees with the labels. */
  lemma LabelAtFront(s: string)
    ensures LabelLength(s) > 0 ==> IsLabel(s[..LabelLength(s)])
  {
    if LabelLength(s) > 0 {
      LabelLengthSound(s);
    }
  }

  /** No speaker label starts at the front of `s`: no prefix of it is one. */
  ghost predicate NoLabelAtFront(s: string) {
    forall k :: 0 < k <= |s| ==> !IsLabel(s[..k])
  }

  /** At a line start where no speaker label begins, nothing is removed: a
      line such as `John Smith: hi`, whose name is not one `\w+` run, is
      copied character by character. */
  lemma RemoveSpeakerLabelsKeepsNonLabel(s: string)
    requires s != []
    requires NoLabelAtFront(s)
    ensures RemoveSpeakerLabels(s, true) == [s[0]] + RemoveSpeakerLabels(s[1..], s[0] == '\n')
  {
    LabelAtFront(s);
  }

  /**
   * Away from a line start nothing is removed: a stretch of text without a
   * line break that does not start a line is copied whole, labels included.
   */
  lemma {:induction false} RemoveSpeakerLabelsKeepsRestOfLine(a: string, b: string)
    requires '\n' !in a
    ensures RemoveSpeakerLabels(a + b, false) == a + RemoveSpeakerLabels(b, false)
    decreases |a|
  {
    if a != [] {
      assert a + b == [a[0]] + (a[1..] + b);
      assert (a + b)[1..] == a[1..] + b;
      assert a[0] in a;
      RemoveSpeakerLabelsKeepsRestOfLine(a[1..], b);
      assert a == [a[0]] + a[1..];
    } else {
      assert a + b == b;
    }
  }

  /** A newline ends the line wherever the scan meets it: the rest of the
      current line is copied, and the scan is back at a line start (where
      `^` matches again in MULTILINE mode) for the next line. */
  lemma {:induction false} RemoveSpeakerLabelsNewLine(a: string, b: string)
    requires '\n' !in a
    ensures RemoveSpeakerLabels(a + "\n" + b, false) == a + "\n" + RemoveSpeakerLabels(b, true)
  {
    var t := "\n" + b;
    RemoveSpeakerLabelsKeepsRestOfLine(a, t);
    assert a + "\n" + b == a + t;
    assert t[0] == '\n' && t[1..] == b;
    assert RemoveSpeakerLabels(t, false) == "\n" + RemoveSpeakerLabels(b, true);
    assert a + "\n" + RemoveSpeakerLabels(b, true) == a + ("\n" + RemoveSpeakerLabels(b, true));
  }

  /** `clean_transcript(transcript)`, lines 13-29. */
  function CleanTranscript(transcript: string): (r: string)
    ensures SpaceNormal(r)
    ensures forall i :: 0 <= i < |r| ==> r[i] != '\n'
    ensures |r| <= |transcript|
  {
    var noStamps := RemoveTimestamps(transcript);
    var noLabels := RemoveSpeakerLabels(noStamps, true);
    NormalizeSpaces(noLabels)
  }

  /** The result is the single-space join of the whitespace-separated words
      left once timestamps and speaker labels are gone. */
  lemma CleanTranscriptJoinsWords(transcript: string)
    ensures CleanTranscript(transcript)
         == JoinWords(Tokens(RemoveSpeakerLabels(RemoveTimestamps(transcript), true)))
  {
    NormalizeSpacesIsJoinOfSplit(RemoveSpeakerLabels(RemoveTimestamps(transcript), true));
  }

  /** A transcript with no '[', no ':' and no whitespace is left unchanged:
      none of the three substitutions can match. */
  lemma CleanTranscriptKeepsPlainWord(transcript: string)
    requires '[' !in transcript && ':' !in transcript && NoSpace(transcript)
    ensures CleanTranscript(transcript) == transcript
  {
    assert RemoveTimestamps(transcript) == transcript by {
      RemoveTimestampsNoBracket(transcript);
    }
    assert RemoveSpeakerLabels(transcript, true) == transcript by {
      RemoveSpeakerLabelsNoColon(transcript, true);
    }
    assert NormalizeSpaces(transcript) == transcript by {
      assert transcript != [] ==> !IsSpace(transcript[0]) && !IsSpace(transcript[|transcript| - 1]);
      NormalizeSpacesFixedPoint(transcript);
    }
  }

  /** The words of ` w1` + newline + `w2`. */
  lemma TokensOfTwoLines(w1: string, w2: string)
    requires w1 != [] && NoSpace(w1) && w2 != [] && NoSpace(w2)
    ensures Tokens(" " + w1 + "\n" + w2) == [w1, w2]
  {
    var tail := "\n" + w2;
    assert " " + w1 + "\n" + w2 == " " + (w1 + tail);
    TokensSkipSpaces(" ", w1 + tail);
    TokensFront(w1, tail);
    TokensSkipSpaces("\n", w2);
    assert w2 == w2 + [];
    TokensFront(w2, []);
  }

  lemma NoBracketInLine(name: string, rest: string)
    requires IsWordRun(name) && '[' !in rest
    ensures '[' !in Label(" ", name, "") + rest
  {
    assert forall i :: 0 <= i < |name| ==> name[i] != '[';
    assert '[' !in name;
    assert Label(" ", name, "") + rest == " " + name + (":" + rest);
  }

  /** The two-line text after its timestamp is gone. */
  lemma StampStageOfTwoLines(h: string, m: string, sec: string, name: string, afterLabel: string)
    requires IsDigits(h) && IsDigits(m) && IsDigits(sec) && IsWordRun(name) && '[' !in afterLabel
    ensures RemoveTimestamps(Stamp(h, m, sec) + (Label(" ", name, "") + afterLabel))
         == Label(" ", name, "") + afterLabel
  {
    RemoveTimestampsDropsStamp(h, m, sec, Label(" ", name, "") + afterLabel);
    NoBracketInLine(name, afterLabel);
    RemoveTimestampsNoBracket(Label(" ", name, "") + afterLabel);
  }

  /** The two-line text after its speaker label is gone. */
  lemma LabelStageOfTwoLines(name: string, afterLabel: string)
    requires IsWordRun(name) && ':' !in afterLabel
    ensures RemoveSpeakerLabels(Label(" ", name, "") + afterLabel, true) == afterLabel
  {
    RemoveSpeakerLabelsDropsLabel(" ", name, "", afterLabel);
    RemoveSpeakerLabelsNoColon(afterLabel, false);
  }

  /** The two lines joined by one space. */
  lemma NormalizeTwoLines(w1: string, w2: string)
    requires w1 != [] && NoSpace(w1) && w2 != [] && NoSpace(w2)
    ensures NormalizeSpaces(" " + w1 + "\n" + w2) == w1 + " " + w2
  {
    NormalizeSpacesIsJoinOfSplit(" " + w1 + "\n" + w2);
    TokensOfTwoLines(w1, w2);
    assert JoinWords([w1, w2]) == w1 + " " + w2;
  }

  /** A typical two-line transcript: the timestamp and the speaker label go,
      and the line break becomes one space. */
  lemma CleanTranscriptDropsStampAndSpeaker(h: string, m: string, sec: string, name: string, w1: string, w2: string)
    requires IsDigits(h) && IsDigits(m) && IsDigits(sec) && IsWordRun(name)
    requires w1 != [] && NoSpace(w1) && '[' !in w1 && ':' !in w1
    requires w2 != [] && NoSpace(w2) && '[' !in w2 && ':' !in w2
    ensures CleanTranscript(Stamp(h, m, sec) + (Label(" ", name, "") + (" " + w1 + "\n" + w2))) == w1 + " " + w2
  {
    var afterLabel := " " + w1 + "\n" + w2;
    assert '[' !in afterLabel && ':' !in afterLabel;
    StampStageOfTwoLines(h, m, sec, name, afterLabel);
    LabelStageOfTwoLines(name, afterLabel);
    NormalizeTwoLines(w1, w2);
  }
}
