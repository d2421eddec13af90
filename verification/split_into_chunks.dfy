/** `split_into_chunks(text, chunk_size)` of src/utils/text_processing.py:
    split the text into sentences at the whitespace that follows '.', '!' or
    '?', then pack the sentences greedily into chunks. */
module Chunking {
  import opened CharClasses
  import opened Whitespace

  /** The class `[.!?]` of the look-behind `(?<=[.!?])`. */
  predicate IsStop(c: char) {
    c == '.' || c == '!' || c == '?'
  }

  /** Whether the character just before a position is a stop, given the text
      `t` between the start of the current piece and that position, and
      `afterStop`, which says whether the piece itself follows a stop. */
  predicate EndsAfterStop(t: string, afterStop: bool) {
    if t == [] then afterStop else IsStop(t[|t| - 1])
  }

  // ---------------------------------------------------------------------------
  // Sentence split: re.split(r"(?<=[.!?])\s+", text)
  // ---------------------------------------------------------------------------

  /** The pieces of a `re.split` and the separators it removed; there is one
      more piece than there are separators. */
  datatype Split = Split(pieces: seq<string>, seps: seq<string>)

  /** Put `c` in front of the first piece. */
  function Cons(c: char, r: Split): Split
    requires r.pieces != []
  {
    Split([[c] + r.pieces[0]] + r.pieces[1..], r.seps)
  }

  /** `re.split(r"(?<=[.!?])\s+", s)` scanning from the front of `s`, where
      `afterStop` says whether the character before `s` is a stop (the
      look-behind; false at the start of the text). A separator is a whole
      whitespace run after a stop, since `\s+` is greedy. */
  function SplitSentences(s: string, afterStop: bool): (r: Split)
    ensures |r.pieces| == |r.seps| + 1
    decreases |s|
  {
    if s == [] then Split([[]], [])
    else if afterStop && IsSpace(s[0]) then
      var k := Span(IsSpace, s, 0);
      var rest := SplitSentences(s[k..], false);
      Split([[]] + rest.pieces, [s[..k]] + rest.seps)
    else
      Cons(s[0], SplitSentences(s[1..], IsStop(s[0])))
  }

  /** Line 43: the sentences of `text`. */
  function Sentences(text: string): (r: seq<string>)
    ensures |r| >= 1
  {
    SplitSentences(text, false).pieces
  }

  /** The text the pieces and separators were cut from:
      `ss[0] + seps[0] + ss[1] + ... + ss[n]`. */
  function Interleave(ss: seq<string>, seps: seq<string>): string
    requires |ss| == |seps| + 1
  {
    ss[0] + Rejoin(ss[1..], seps)
  }

  /** `seps[0] + ts[0] + seps[1] + ts[1] + ...`. */
  function Rejoin(ts: seq<string>, seps: seq<string>): string
    requires |ts| == |seps|
    decreases |seps|
  {
    if seps == [] then [] else seps[0] + ts[0] + Rejoin(ts[1..], seps[1..])
  }

  /** Whether the character before position `j` of `t` is a stop, where
      `afterStop` stands for the character before `t`. */
  predicate StopBefore(t: string, j: nat, afterStop: bool)
    requires j <= |t|
  {
    if j == 0 then afterStop else IsStop(t[j - 1])
  }

  /** No whitespace in `t` follows a stop: the pattern does not match inside
      a piece. */
  predicate NoBreak(t: string, afterStop: bool) {
    forall j :: 0 <= j < |t| && IsSpace(t[j]) ==> !StopBefore(t, j, afterStop)
  }

  /** Every piece after the first has no place where the pattern matches and
      does not start with whitespace (the separator before it took the whole
      run). */
  predicate LaterPieces(ss: seq<string>) {
    forall i :: 0 < i < |ss| ==> NoBreak(ss[i], false) && (ss[i] != [] ==> !IsSpace(ss[i][0]))
  }

  /** Every separator is a nonempty whitespace run. */
  predicate SpaceRuns(seps: seq<string>) {
    forall i :: 0 <= i < |seps| ==> seps[i] != [] && AllSpace(seps[i])
  }

  /** Every separator follows a stop. */
  predicate AfterStops(ss: seq<string>, seps: seq<string>, afterStop: bool)
    requires |ss| == |seps| + 1
  {
    forall i :: 0 <= i < |seps| ==> EndsAfterStop(ss[i], i == 0 && afterStop)
  }

  /** What `re.split` produces, described without scanning: every separator
      is a nonempty whitespace run that follows a stop and is followed by a
      non-space character or the end of the text, and no piece contains a
      place where the pattern would match. */
  predicate SplitForm(ss: seq<string>, seps: seq<string>, afterStop: bool) {
    && |ss| == |seps| + 1
    && NoBreak(ss[0], afterStop)
    && LaterPieces(ss)
    && SpaceRuns(seps)
    && AfterStops(ss, seps, afterStop)
  }

  lemma LaterPiecesTail(ss: seq<string>)
    requires LaterPieces(ss) && |ss| > 1
    ensures LaterPieces(ss[1..])
    ensures NoBreak(ss[1], false) && (ss[1] != [] ==> !IsSpace(ss[1][0]))
  {
    assert forall i :: 0 <= i < |ss[1..]| ==> ss[1..][i] == ss[i + 1];
  }

  lemma LaterPiecesCons(p: string, ss: seq<string>)
    requires LaterPieces(ss) && ss != []
    requires NoBreak(ss[0], false) && (ss[0] != [] ==> !IsSpace(ss[0][0]))
    ensures LaterPieces([p] + ss)
  {
    assert forall i :: 0 < i < |[p] + ss| ==> ([p] + ss)[i] == ss[i - 1];
  }

  lemma LaterPiecesSameTail(a: seq<string>, b: seq<string>)
    requires LaterPieces(b) && |a| == |b| > 0 && a[1..] == b[1..]
    ensures LaterPieces(a)
  {
    assert forall i :: 0 < i < |a| ==> a[i] == a[1..][i - 1];
  }

  lemma SpaceRunsCons(sep: string, seps: seq<string>)
    ensures SpaceRuns([sep] + seps) <==> sep != [] && AllSpace(sep) && SpaceRuns(seps)
  {
    var all := [sep] + seps;
    assert all[0] == sep;
    assert forall i :: 0 < i < |all| ==> all[i] == seps[i - 1];
    if SpaceRuns(all) {
      assert forall i :: 0 <= i < |seps| ==> all[i + 1] == seps[i];
    }
  }

  lemma AfterStopsSeparator(sep: string, ss: seq<string>, seps: seq<string>)
    requires |ss| == |seps| + 1 && AfterStops(ss, seps, false)
    ensures AfterStops([[]] + ss, [sep] + seps, true)
  {
    assert forall i :: 0 < i < |[[]] + ss| ==> ([[]] + ss)[i] == ss[i - 1];
  }

  lemma AfterStopsTail(ss: seq<string>, seps: seq<string>, afterStop: bool)
    requires |ss| == |seps| + 1 && seps != [] && AfterStops(ss, seps, afterStop)
    ensures AfterStops(ss[1..], seps[1..], false)
  {
    assert forall i :: 0 <= i < |seps[1..]| ==> ss[1..][i] == ss[i + 1];
  }

  lemma AfterStopsHead(ss: seq<string>, seps: seq<string>, afterStop: bool, ss': seq<string>, afterStop': bool)
    requires |ss| == |seps| + 1 && AfterStops(ss, seps, afterStop)
    requires |ss'| == |ss| && ss'[1..] == ss[1..]
    requires seps != [] ==> EndsAfterStop(ss'[0], afterStop') == EndsAfterStop(ss[0], afterStop)
    ensures AfterStops(ss', seps, afterStop')
  {
    assert forall i :: 0 < i < |ss| ==> ss'[i] == ss'[1..][i - 1] && ss[i] == ss[1..][i - 1];
  }

  lemma ConsInterleave(c: char, r: Split)
    requires |r.pieces| == |r.seps| + 1
    ensures |Cons(c, r).pieces| == |Cons(c, r).seps| + 1
    ensures Interleave(Cons(c, r).pieces, Cons(c, r).seps) == [c] + Interleave(r.pieces, r.seps)
  {
    var p := Cons(c, r).pieces;
    assert p[1..] == r.pieces[1..];
    var t := Rejoin(r.pieces[1..], r.seps);
    assert ([c] + r.pieces[0]) + t == [c] + (r.pieces[0] + t);
  }

  /** A separator in front of a split text in the split form. */
  lemma SeparatorStep(sep: string, text: string, rest: Split, r: Split)
    requires sep != [] && AllSpace(sep) && (text != [] ==> !IsSpace(text[0]))
    requires SplitForm(rest.pieces, rest.seps, false) && Interleave(rest.pieces, rest.seps) == text
    requires r == Split([[]] + rest.pieces, [sep] + rest.seps)
    ensures SplitForm(r.pieces, r.seps, true)
    ensures Interleave(r.pieces, r.seps) == sep + text
  {
    var ps := [[]] + rest.pieces;
    assert ps[1..] == rest.pieces;
    var p0 := rest.pieces[0];
    assert text == p0 + Rejoin(rest.pieces[1..], rest.seps);
    assert p0 != [] ==> p0[0] == text[0];
    LaterPiecesCons([], rest.pieces);
    SpaceRunsCons(sep, rest.seps);
    AfterStopsSeparator(sep, rest.pieces, rest.seps);
    assert ([sep] + rest.seps)[1..] == rest.seps;
  }

  /** A character in front of a split text that does not start a separator
      joins the first piece. */
  lemma CharStep(c: char, text: string, rest: Split, afterStop: bool, r: Split)
    requires !(afterStop && IsSpace(c))
    requires SplitForm(rest.pieces, rest.seps, IsStop(c)) && Interleave(rest.pieces, rest.seps) == text
    requires r == Cons(c, rest)
    ensures SplitForm(r.pieces, r.seps, afterStop)
    ensures Interleave(r.pieces, r.seps) == [c] + text
  {
    ConsInterleave(c, rest);
    var p0 := rest.pieces[0];
    var q := [c] + p0;
    assert r.pieces[0] == q;
    assert r.pieces[1..] == rest.pieces[1..];
    NoBreakCons(c, p0, afterStop);
    LaterPiecesSameTail(r.pieces, rest.pieces);
    AfterStopsHead(rest.pieces, rest.seps, IsStop(c), r.pieces, afterStop);
  }

  /** A character that does not start a separator in front of a piece with
      no match keeps it without a match, and the other way round. */
  lemma NoBreakCons(c: char, p: string, afterStop: bool)
    requires !(afterStop && IsSpace(c))
    ensures NoBreak([c] + p, afterStop) <==> NoBreak(p, IsStop(c))
    ensures EndsAfterStop([c] + p, afterStop) == EndsAfterStop(p, IsStop(c))
  {
    if NoBreak(p, IsStop(c)) {
      NoBreakConsFront(c, p, afterStop);
    }
    if NoBreak([c] + p, afterStop) {
      NoBreakConsBack(c, p, afterStop);
    }
    var q := [c] + p;
    assert q[|q| - 1] == if p == [] then c else p[|p| - 1];
  }

  lemma NoBreakConsFront(c: char, p: string, afterStop: bool)
    requires !(afterStop && IsSpace(c)) && NoBreak(p, IsStop(c))
    ensures NoBreak([c] + p, afterStop)
  {
    var q := [c] + p;
    forall j | 0 <= j < |q| && IsSpace(q[j])
      ensures !StopBefore(q, j, afterStop)
    {
      if j > 0 {
        assert q[j] == p[j - 1];
        assert q[j - 1] == if j == 1 then c else p[j - 2];
        assert StopBefore(q, j, afterStop) == StopBefore(p, j - 1, IsStop(c));
      }
    }
  }

  lemma NoBreakConsBack(c: char, p: string, afterStop: bool)
    requires NoBreak([c] + p, afterStop)
    ensures NoBreak(p, IsStop(c))
  {
    var q := [c] + p;
    forall j | 0 <= j < |p| && IsSpace(p[j])
      ensures !StopBefore(p, j, IsStop(c))
    {
      assert q[j + 1] == p[j];
      assert q[j] == if j == 0 then c else p[j - 1];
      assert StopBefore(q, j + 1, afterStop) == StopBefore(p, j, IsStop(c));
    }
  }

  /** The split pieces and separators give back the text, in the split form. */
  lemma {:induction false} SplitSentencesSound(s: string, afterStop: bool)
    ensures SplitForm(SplitSentences(s, afterStop).pieces, SplitSentences(s, afterStop).seps, afterStop)
    ensures Interleave(SplitSentences(s, afterStop).pieces, SplitSentences(s, afterStop).seps) == s
    decreases |s|
  {
    if s == [] {
    } else if afterStop && IsSpace(s[0]) {
      var k := Span(IsSpace, s, 0);
      var sep, text := s[..k], s[k..];
      assert sep != [] && AllSpace(sep) && (text != [] ==> !IsSpace(text[0])) && sep + text == s by {
        LeadingSpaceRun(s);
        assert text != [] ==> text[0] == s[k];
      }
      SplitSentencesSound(text, false);
      SoundAtSeparator(sep, text);
    } else {
      SplitSentencesSound(s[1..], IsStop(s[0]));
      SoundAtChar(s, afterStop);
    }
  }

  /** The step of `SplitSentencesSound` for a separator at the front. */
  lemma SoundAtSeparator(sep: string, text: string)
    requires sep != [] && AllSpace(sep) && (text != [] ==> !IsSpace(text[0]))
    requires var rest := SplitSentences(text, false);
      SplitForm(rest.pieces, rest.seps, false) && Interleave(rest.pieces, rest.seps) == text
    ensures SplitForm(SplitSentences(sep + text, true).pieces, SplitSentences(sep + text, true).seps, true)
    ensures Interleave(SplitSentences(sep + text, true).pieces, SplitSentences(sep + text, true).seps) == sep + text
  {
    SplitAtSeparator(sep, text);
    SeparatorStep(sep, text, SplitSentences(text, false), SplitSentences(sep + text, true));
  }

  /** The step of `SplitSentencesSound` for a character that joins the first
      piece. */
  lemma SoundAtChar(s: string, afterStop: bool)
    requires s != [] && !(afterStop && IsSpace(s[0]))
    requires var rest := SplitSentences(s[1..], IsStop(s[0]));
      SplitForm(rest.pieces, rest.seps, IsStop(s[0])) && Interleave(rest.pieces, rest.seps) == s[1..]
    ensures SplitForm(SplitSentences(s, afterStop).pieces, SplitSentences(s, afterStop).seps, afterStop)
    ensures Interleave(SplitSentences(s, afterStop).pieces, SplitSentences(s, afterStop).seps) == s
  {
    var rest := SplitSentences(s[1..], IsStop(s[0]));
    CharStep(s[0], s[1..], rest, afterStop, SplitSentences(s, afterStop));
    assert [s[0]] + s[1..] == s;
  }

  /** A separator at the front of `s` is removed whole. */
  lemma SplitAtSeparator(sep: string, rest: string)
    requires sep != [] && AllSpace(sep)
    requires rest != [] ==> !IsSpace(rest[0])
    ensures SplitSentences(sep + rest, true)
         == Split([[]] + SplitSentences(rest, false).pieces, [sep] + SplitSentences(rest, false).seps)
  {
    var s := sep + rest;
    assert s[0] == sep[0];
    SpanConcat(IsSpace, sep, rest, 0);
    assert s[..|sep|] == sep;
    assert s[|sep|..] == rest;
  }

  /** A split form whose first piece starts with `c`: the rest of the text
      is in the split form with `c` taken off, and `c` cannot start a
      separator. */
  lemma CharForm(ss: seq<string>, seps: seq<string>, afterStop: bool) returns (ss': seq<string>)
    requires SplitForm(ss, seps, afterStop) && ss[0] != []
    ensures ss' == [ss[0][1..]] + ss[1..]
    ensures SplitForm(ss', seps, IsStop(ss[0][0]))
    ensures !(afterStop && IsSpace(ss[0][0]))
    ensures Interleave(ss, seps) == [ss[0][0]] + Interleave(ss', seps)
    ensures Cons(ss[0][0], Split(ss', seps)) == Split(ss, seps)
  {
    var c := ss[0][0];
    var p := ss[0][1..];
    ss' := [p] + ss[1..];
    assert ss'[1..] == ss[1..];
    var u := Rejoin(ss[1..], seps);
    assert ss[0] == [c] + p;
    assert Interleave(ss, seps) == ([c] + p) + u;
    assert ss[0][..0] == [];
    NoBreakCons(c, p, afterStop);
    LaterPiecesSameTail(ss', ss);
    AfterStopsHead(ss, seps, afterStop, ss', IsStop(c));
    assert ss == [[c] + p] + ss'[1..];
  }

  /** A split form whose first piece is empty starts with a separator after a
      stop, and the rest is in the split form. */
  lemma SeparatorForm(ss: seq<string>, seps: seq<string>, afterStop: bool)
    requires SplitForm(ss, seps, afterStop) && ss[0] == [] && seps != []
    ensures afterStop
    ensures SplitForm(ss[1..], seps[1..], false)
    ensures Interleave(ss, seps) == seps[0] + Interleave(ss[1..], seps[1..])
    ensures var rest := Interleave(ss[1..], seps[1..]); rest != [] ==> !IsSpace(rest[0])
    ensures ss == [[]] + ss[1..] && seps == [seps[0]] + seps[1..]
  {
    assert EndsAfterStop(ss[0], afterStop);
    assert ss[1..][1..] == ss[2..];
    LaterPiecesTail(ss);
    AfterStopsTail(ss, seps, afterStop);
    SpaceRunsCons(seps[0], seps[1..]);
    assert seps == [seps[0]] + seps[1..];
    if ss[1] == [] {
      assert !EndsAfterStop(ss[1], false);
      assert seps[1..] == [];
    }
  }

  /** Conversely, any pieces and separators in the split form are exactly
      what `re.split` finds in the text they make up: the split is the only
      one of that form. */
  lemma {:induction false} SplitOfInterleave(ss: seq<string>, seps: seq<string>, afterStop: bool)
    requires SplitForm(ss, seps, afterStop)
    ensures SplitSentences(Interleave(ss, seps), afterStop) == Split(ss, seps)
    decreases |seps|, |ss[0]|
  {
    var t := Interleave(ss, seps);
    if ss[0] != [] {
      var c := ss[0][0];
      var ss' := CharForm(ss, seps, afterStop);
      SplitOfInterleave(ss', seps, IsStop(c));
      assert t[1..] == Interleave(ss', seps);
    } else if seps != [] {
      SeparatorForm(ss, seps, afterStop);
      var rest := Interleave(ss[1..], seps[1..]);
      SplitOfInterleave(ss[1..], seps[1..], false);
      SplitAtSeparator(seps[0], rest);
    } else {
      assert ss == [[]];
    }
  }

  // ---------------------------------------------------------------------------
  // Greedy packing: the loop of lines 45-56
  // ---------------------------------------------------------------------------

  /** `current_chunk` after the sentences of `g` were added to it: each
      sentence followed by one space. */
  function JoinSp(g: seq<string>): (r: string)
    ensures g == [] <==> r == []
  {
    if g == [] then [] else JoinSp(g[..|g| - 1]) + g[|g| - 1] + " "
  }

  /** The lines 45-56 loop as written, over the sentences still to come:
      `cur` is `current_chunk` and `chunks` the chunks so far. */
  function Pack(sents: seq<string>, size: int, cur: string, chunks: seq<string>): (r: seq<string>)
    ensures |r| >= |chunks| && r[..|chunks|] == chunks
    ensures sents != [] || cur != [] ==> |r| > |chunks|
    decreases |sents|
  {
    if sents == [] then
      if cur != [] then chunks + [Strip(cur)] else chunks
    else if |cur| + |sents[0]| <= size then
      Pack(sents[1..], size, cur + sents[0] + " ", chunks)
    else
      Pack(sents[1..], size, sents[0] + " ", chunks + [Strip(cur)])
  }

  /** `split_into_chunks(text, chunk_size)`, lines 32-58. */
  function SplitIntoChunks(text: string, size: int := 1000): (r: seq<string>)
    ensures |r| >= 1
    ensures forall i :: 0 <= i < |r| ==> IsStripped(r[i])
  {
    PackAddsStripped(Sentences(text), size, [], []);
    Pack(Sentences(text), size, [], [])
  }

  /** Every chunk the loop adds is stripped. */
  lemma {:induction false} PackAddsStripped(sents: seq<string>, size: int, cur: string, chunks: seq<string>)
    ensures forall i :: |chunks| <= i < |Pack(sents, size, cur, chunks)| ==> IsStripped(Pack(sents, size, cur, chunks)[i])
    decreases |sents|
  {
    var r := Pack(sents, size, cur, chunks);
    if sents == [] {
    } else if |cur| + |sents[0]| <= size {
      PackAddsStripped(sents[1..], size, cur + sents[0] + " ", chunks);
    } else {
      var chunks' := chunks + [Strip(cur)];
      PackAddsStripped(sents[1..], size, sents[0] + " ", chunks');
      assert r[|chunks|] == chunks'[|chunks|];
    }
  }

  /** The same loop over groups of sentences: `cur` holds the sentences of
      the open chunk and `done` the groups already closed. */
  function PackGroups(sents: seq<string>, size: int, cur: seq<string>, done: seq<seq<string>>): seq<seq<string>>
    decreases |sents|
  {
    if sents == [] then
      if cur != [] then done + [cur] else done
    else if |JoinSp(cur)| + |sents[0]| <= size then
      PackGroups(sents[1..], size, cur + [sents[0]], done)
    else
      PackGroups(sents[1..], size, [sents[0]], done + [cur])
  }

  /** The sentence groups of `text`: chunk `i` is made from group `i`. */
  function Groups(text: string, size: int): seq<seq<string>> {
    PackGroups(Sentences(text), size, [], [])
  }

  /** The chunk each group of sentences becomes. */
  function Chunks(gs: seq<seq<string>>): (r: seq<string>)
    ensures |r| == |gs|
  {
    seq(|gs|, i requires 0 <= i < |gs| => Strip(JoinSp(gs[i])))
  }

  /** All the sentences of the groups, in order. */
  function Flatten(gs: seq<seq<string>>): seq<string> {
    if gs == [] then [] else Flatten(gs[..|gs| - 1]) + gs[|gs| - 1]
  }

  /** Greedy grouping against `size`: every sentence of a group fitted when
      it was added (its length plus that of the group so far is at most
      `size`), except the first of each group after the first, which did
      not fit in the group before it. Only the first group can be empty. */
  predicate Greedy(gs: seq<seq<string>>, size: int) {
    && (forall i, j :: 0 <= i < |gs| && 0 <= j < |gs[i]| && (i == 0 || 0 < j) ==> Fitted(gs[i], j, size))
    && (forall i :: 0 < i < |gs| ==> Opens(gs, i, size))
  }

  /** Sentence `j` of group `g` fitted when it was added. */
  predicate Fitted(g: seq<string>, j: nat, size: int)
    requires j < |g|
  {
    |JoinSp(g[..j])| + |g[j]| <= size
  }

  /** Group `i` is not empty and its first sentence did not fit in group
      `i - 1`. */
  predicate Opens(gs: seq<seq<string>>, i: nat, size: int)
    requires 0 < i < |gs|
  {
    gs[i] != [] && |JoinSp(gs[i - 1])| + |gs[i][0]| > size
  }

  lemma JoinSpSnoc(g: seq<string>, s: string)
    ensures JoinSp(g + [s]) == JoinSp(g) + s + " "
  {
    assert (g + [s])[..|g|] == g;
  }

  lemma FlattenSnoc(gs: seq<seq<string>>, g: seq<string>)
    ensures Flatten(gs + [g]) == Flatten(gs) + g
  {
    assert (gs + [g])[..|gs|] == gs;
  }

  lemma ChunksSnoc(gs: seq<seq<string>>, g: seq<string>)
    ensures Chunks(gs + [g]) == Chunks(gs) + [Strip(JoinSp(g))]
  {
  }

  /** The loop as written builds the chunks of the groups. */
  lemma {:induction false} PackIsPackGroups(sents: seq<string>, size: int, cur: seq<string>, done: seq<seq<string>>)
    ensures Pack(sents, size, JoinSp(cur), Chunks(done)) == Chunks(PackGroups(sents, size, cur, done))
    decreases |sents|
  {
    if sents == [] {
      if cur != [] {
        ChunksSnoc(done, cur);
      }
    } else {
      var s := sents[0];
      if |JoinSp(cur)| + |s| <= size {
        JoinSpSnoc(cur, s);
        assert Pack(sents, size, JoinSp(cur), Chunks(done))
            == Pack(sents[1..], size, JoinSp(cur + [s]), Chunks(done));
        PackIsPackGroups(sents[1..], size, cur + [s], done);
      } else {
        assert JoinSp([s]) == s + " " by {
          JoinSpSnoc([], s);
          assert [] + [s] == [s];
        }
        ChunksSnoc(done, cur);
        assert Pack(sents, size, JoinSp(cur), Chunks(done))
            == Pack(sents[1..], size, JoinSp([s]), Chunks(done + [cur]));
        PackIsPackGroups(sents[1..], size, [s], done + [cur]);
      }
    }
  }

  /** Every sentence goes into exactly one group, in the original order. */
  lemma {:induction false} PackGroupsFlatten(sents: seq<string>, size: int, cur: seq<string>, done: seq<seq<string>>)
    ensures Flatten(PackGroups(sents, size, cur, done)) == Flatten(done) + cur + sents
    decreases |sents|
  {
    if sents == [] {
      if cur != [] {
        FlattenSnoc(done, cur);
      }
    } else {
      var s := sents[0];
      assert sents == [s] + sents[1..];
      if |JoinSp(cur)| + |s| <= size {
        PackGroupsFlatten(sents[1..], size, cur + [s], done);
      } else {
        FlattenSnoc(done, cur);
        PackGroupsFlatten(sents[1..], size, [s], done + [cur]);
      }
    }
  }

  lemma GreedyPrefix(gs: seq<seq<string>>, size: int)
    requires gs != [] && Greedy(gs, size)
    ensures Greedy(gs[..|gs| - 1], size)
  {
    var p := gs[..|gs| - 1];
    forall i | 0 <= i < |p|
      ensures p[i] == gs[i]
    {
    }
    forall i | 0 < i < |p|
      ensures Opens(p, i, size)
    {
      assert Opens(gs, i, size);
    }
  }

  /** Adding a sentence that fits keeps the grouping greedy. */
  lemma GreedyFit(done: seq<seq<string>>, cur: seq<string>, s: string, size: int)
    requires Greedy(done + [cur], size)
    requires |JoinSp(cur)| + |s| <= size
    ensures Greedy(done + [cur + [s]], size)
  {
    var gs := done + [cur];
    var gs' := done + [cur + [s]];
    var n := |done|;
    forall i, j | 0 <= i < |gs'| && 0 <= j < |gs'[i]| && (i == 0 || 0 < j)
      ensures Fitted(gs'[i], j, size)
    {
      if i < n {
        assert gs'[i] == gs[i];
        assert Fitted(gs[i], j, size);
      } else if j < |cur| {
        assert gs'[i][..j] == cur[..j];
        assert gs'[i][j] == gs[i][j];
        assert Fitted(gs[i], j, size);
      } else {
        assert gs'[i][..j] == cur;
      }
    }
    forall i | 0 < i < |gs'|
      ensures Opens(gs', i, size)
    {
      assert Opens(gs, i, size);
      assert gs'[i - 1] == gs[i - 1];
      if i < n {
        assert gs'[i] == gs[i];
      } else {
        assert gs'[i][0] == gs[i][0];
      }
    }
  }

  /** Opening a new group with a sentence that does not fit keeps the
      grouping greedy. */
  lemma GreedyOverflow(done: seq<seq<string>>, cur: seq<string>, s: string, size: int)
    requires Greedy(done + [cur], size)
    requires |JoinSp(cur)| + |s| > size
    ensures Greedy(done + [cur] + [[s]], size)
  {
    var gs := done + [cur];
    var gs' := gs + [[s]];
    forall i, j | 0 <= i < |gs'| && 0 <= j < |gs'[i]| && (i == 0 || 0 < j)
      ensures Fitted(gs'[i], j, size)
    {
      assert i < |gs|;
      assert gs'[i] == gs[i];
      assert Fitted(gs[i], j, size);
    }
    forall i | 0 < i < |gs'|
      ensures Opens(gs', i, size)
    {
      if i < |gs| {
        assert gs'[i] == gs[i] && gs'[i - 1] == gs[i - 1];
        assert Opens(gs, i, size);
      } else {
        assert gs'[i - 1] == cur;
      }
    }
  }

  /** The packing loop groups the sentences greedily. */
  lemma {:induction false} PackGroupsGreedy(sents: seq<string>, size: int, cur: seq<string>, done: seq<seq<string>>)
    requires Greedy(done + [cur], size)
    ensures Greedy(PackGroups(sents, size, cur, done), size)
    decreases |sents|
  {
    if sents == [] {
      if cur == [] {
        GreedyPrefix(done + [cur], size);
        assert (done + [cur])[..|done|] == done;
      }
    } else {
      var s := sents[0];
      if |JoinSp(cur)| + |s| <= size {
        GreedyFit(done, cur, s, size);
        PackGroupsGreedy(sents[1..], size, cur + [s], done);
      } else {
        GreedyOverflow(done, cur, s, size);
        PackGroupsGreedy(sents[1..], size, [s], done + [cur]);
      }
    }
  }

  /** The last group is never empty once a sentence has been read. */
  lemma {:induction false} PackGroupsLast(sents: seq<string>, size: int, cur: seq<string>, done: seq<seq<string>>)
    requires sents != [] || cur != []
    ensures PackGroups(sents, size, cur, done) != []
    ensures PackGroups(sents, size, cur, done)[|PackGroups(sents, size, cur, done)| - 1] != []
    decreases |sents|
  {
    if sents != [] {
      var s := sents[0];
      if |JoinSp(cur)| + |s| <= size {
        PackGroupsLast(sents[1..], size, cur + [s], done);
      } else {
        PackGroupsLast(sents[1..], size, [s], done + [cur]);
      }
    }
  }

  /** For any non-empty list of sentences (the split always gives one), the
      chunks are the greedy groups of the sentences, each group's sentences
      joined by spaces and stripped; every sentence is in exactly one group,
      the groups keep the sentences' order, and the last group is not empty. */
  lemma PackIsGreedy(sents: seq<string>, size: int)
    requires sents != []
    ensures Pack(sents, size, [], []) == Chunks(PackGroups(sents, size, [], []))
    ensures Flatten(PackGroups(sents, size, [], [])) == sents
    ensures Greedy(PackGroups(sents, size, [], []), size)
    ensures PackGroups(sents, size, [], []) != []
    ensures PackGroups(sents, size, [], [])[|PackGroups(sents, size, [], [])| - 1] != []
  {
    var none: seq<seq<string>> := [];
    assert Chunks(none) == [] && JoinSp([]) == [] by {
    }
    PackIsPackGroups(sents, size, [], none);
    PackGroupsLast(sents, size, [], none);
    assert Flatten(none) + [] + sents == sents by {
    }
    PackGroupsFlatten(sents, size, [], none);
    assert none + [[]] == [[]] && Greedy([[]], size) by {
    }
    PackGroupsGreedy(sents, size, [], none);
  }

  /** Flattening from the front. */
  lemma {:induction false} FlattenFront(gs: seq<seq<string>>)
    requires gs != []
    ensures Flatten(gs) == gs[0] + Flatten(gs[1..])
    decreases |gs|
  {
    if |gs| > 1 {
      var init := gs[..|gs| - 1];
      FlattenFront(init);
      assert init[1..] == gs[1..][..|gs[1..]| - 1];
      assert init[0] == gs[0];
    } else {
      assert gs[..0] == [];
      assert gs[1..] == [];
    }
  }

  /** A group whose last sentence fitted makes a chunk of at most `size`
      characters: the trailing space is stripped. */
  lemma FittingGroupChunk(g: seq<string>, size: int)
    requires g != [] && |JoinSp(g[..|g| - 1])| + |g[|g| - 1]| <= size
    ensures |Strip(JoinSp(g))| <= size
  {
    var j := JoinSp(g);
    assert j[|j| - 1] == ' ';
    StripShortens(j);
  }

  /** A chunk of two or more sentences is at most `size` long, and so is a
      first chunk of one sentence; only a later chunk of a single sentence can
      be longer. */
  lemma ChunkWithinSize(sents: seq<string>, size: int, i: nat)
    requires sents != [] && i < |PackGroups(sents, size, [], [])|
    requires var g := PackGroups(sents, size, [], [])[i]; |g| >= 2 || (i == 0 && g != [])
    ensures i < |Pack(sents, size, [], [])| && |Pack(sents, size, [], [])[i]| <= size
  {
    PackIsGreedy(sents, size);
    var gs := PackGroups(sents, size, [], []);
    var n := |gs[i]|;
    assert Fitted(gs[i], n - 1, size);
    FittingGroupChunk(gs[i], size);
    assert Pack(sents, size, [], [])[i] == Chunks(gs)[i];
  }

  /** Empty text is one empty sentence. With a `chunk_size` of at least 0 it
      fits the empty chunk and gives the single chunk `""`; with a negative
      one it does not fit, so the empty first chunk is followed by `""`. */
  lemma EmptyTextChunks(size: int)
    ensures size >= 0 ==> SplitIntoChunks([], size) == [[]]
    ensures size < 0 ==> SplitIntoChunks([], size) == [[], []]
  {
    assert Sentences([]) == [[]];
    StripAllSpace([]);
    StripAllSpace(" ");
  }

  /** An over-long first sentence leaves the first chunk empty: the first
      group is empty exactly when the first sentence alone exceeds `size`,
      and then a second chunk follows. */
  lemma LeadingEmptyChunk(text: string, size: int)
    ensures Groups(text, size) != []
    ensures Groups(text, size)[0] == [] <==> |Sentences(text)[0]| > size
    ensures |Sentences(text)[0]| > size ==>
              SplitIntoChunks(text, size)[0] == [] && |SplitIntoChunks(text, size)| >= 2
    ensures |Sentences(text)[0]| <= size ==> Groups(text, size)[0][0] == Sentences(text)[0]
  {
    PackIsGreedy(Sentences(text), size);
    var gs := Groups(text, size);
    GreedyFirstGroup(gs, Sentences(text), size);
    if gs[0] == [] {
      assert Chunks(gs)[0] == Strip([]);
    }
  }

  /** The first group of a greedy grouping of `sents` is empty exactly when
      the first sentence does not fit, and then another group follows. */
  lemma GreedyFirstGroup(gs: seq<seq<string>>, sents: seq<string>, size: int)
    requires Greedy(gs, size) && Flatten(gs) == sents && sents != []
    requires gs != [] && gs[|gs| - 1] != []
    ensures gs[0] == [] <==> |sents[0]| > size
    ensures gs[0] == [] ==> |gs| >= 2
    ensures |sents[0]| <= size ==> gs[0][0] == sents[0]
  {
    FlattenFront(gs);
    if gs[0] != [] {
      assert sents[0] == gs[0][0];
      assert gs[0][..0] == [];
      assert Fitted(gs[0], 0, size);
    } else {
      assert |gs| >= 2;
      assert Opens(gs, 1, size);
      FlattenFront(gs[1..]);
      assert gs[1..][0] == gs[1];
      assert sents[0] == gs[1][0];
    }
  }

  /** The loop state `cur`, `done`, `sents` agrees with the grouping `gs`:
      the closed groups are the first `k` of `gs`, the open one is a
      beginning of group `k`, and the sentences still to come are the rest. */
  predicate Follows(gs: seq<seq<string>>, k: nat, cur: seq<string>, done: seq<seq<string>>, sents: seq<string>) {
    && k < |gs| && done == gs[..k] && |cur| <= |gs[k]| && cur == gs[k][..|cur|]
    && (k > 0 ==> cur != [])
    && sents == gs[k][|cur|..] + Flatten(gs[k + 1..])
  }

  lemma FollowsEnd(gs: seq<seq<string>>, size: int, k: nat, cur: seq<string>, done: seq<seq<string>>)
    requires Follows(gs, k, cur, done, [])
    requires Greedy(gs, size) && gs[|gs| - 1] != []
    ensures cur != [] && gs == done + [cur]
  {
    assert gs[k][|cur|..] == [];
    assert cur == gs[k];
    assert k + 1 == |gs|;
    assert gs == gs[..k] + [gs[k]];
  }

  lemma FollowsFit(gs: seq<seq<string>>, size: int, k: nat, cur: seq<string>, done: seq<seq<string>>, sents: seq<string>)
    requires Greedy(gs, size) && Follows(gs, k, cur, done, sents)
    requires sents != [] && |cur| < |gs[k]|
    ensures |JoinSp(cur)| + |sents[0]| <= size
    ensures Follows(gs, k, cur + [sents[0]], done, sents[1..])
  {
    var g, n, rest := gs[k], |cur|, Flatten(gs[k + 1..]);
    assert sents[0] == g[n] && sents[1..] == g[n + 1..] + rest by {
      assert sents == g[n..] + rest;
      assert g[n..] == [g[n]] + g[n + 1..];
    }
    assert cur + [g[n]] == g[..n + 1] by {
      assert g[..n + 1] == g[..n] + [g[n]];
    }
    assert Fitted(g, n, size);
  }

  lemma FollowsOverflow(gs: seq<seq<string>>, size: int, k: nat, cur: seq<string>, done: seq<seq<string>>, sents: seq<string>)
    requires Greedy(gs, size) && Follows(gs, k, cur, done, sents)
    requires sents != [] && |cur| == |gs[k]|
    ensures |JoinSp(cur)| + |sents[0]| > size
    ensures Follows(gs, k + 1, [sents[0]], done + [cur], sents[1..])
  {
    var g := gs[k + 1];
    var rest := Flatten(gs[k + 2..]);
    assert cur == gs[k] && k + 1 < |gs| && sents == g + rest by {
      var later := gs[k + 1..];
      assert gs[k][|cur|..] == [];
      assert later != [];
      FlattenFront(later);
      assert later[0] == g && later[1..] == gs[k + 2..];
    }
    assert Opens(gs, k + 1, size);
    assert sents[0] == g[0] && sents[1..] == g[1..] + rest by {
      assert g == [g[0]] + g[1..];
    }
    assert done + [cur] == gs[..k + 1] by {
      assert gs[..k + 1] == gs[..k] + [gs[k]];
    }
    assert [g[0]] == g[..1];
  }

  /** From any point of the loop that agrees with a greedy grouping `gs`, the
      loop builds exactly `gs`. */
  lemma {:induction false} PackGroupsFollows(gs: seq<seq<string>>, size: int, k: nat, cur: seq<string>,
                                             done: seq<seq<string>>, sents: seq<string>)
    requires Follows(gs, k, cur, done, sents)
    requires Greedy(gs, size) && gs[|gs| - 1] != []
    ensures PackGroups(sents, size, cur, done) == gs
    decreases |sents|
  {
    if sents == [] {
      FollowsEnd(gs, size, k, cur, done);
    } else if |cur| < |gs[k]| {
      FollowsFit(gs, size, k, cur, done, sents);
      PackGroupsFollows(gs, size, k, cur + [sents[0]], done, sents[1..]);
    } else {
      FollowsOverflow(gs, size, k, cur, done, sents);
      PackGroupsFollows(gs, size, k + 1, [sents[0]], done + [cur], sents[1..]);
    }
  }

  /** The greedy grouping is unique: any grouping of the sentences that is
      greedy against `size` and does not end in an empty group is the one the
      loop builds. */
  lemma GreedyGroupsUnique(sents: seq<string>, size: int, gs: seq<seq<string>>)
    requires Greedy(gs, size) && Flatten(gs) == sents
    requires gs != [] && gs[|gs| - 1] != []
    ensures gs == PackGroups(sents, size, [], [])
  {
    FlattenFront(gs);
    assert gs[0][..0] == [] && gs[0][0..] == gs[0];
    assert gs[..0] == [];
    PackGroupsFollows(gs, size, 0, [], [], sents);
  }

  /** Greedy groupings are unique: two greedy groupings of the same sentences
      that both end in a non-empty group are the same grouping. */
  lemma GreedyUnique(gs1: seq<seq<string>>, gs2: seq<seq<string>>, size: int)
    requires Greedy(gs1, size) && gs1 != [] && gs1[|gs1| - 1] != []
    requires Greedy(gs2, size) && gs2 != [] && gs2[|gs2| - 1] != []
    requires Flatten(gs1) == Flatten(gs2)
    ensures gs1 == gs2
  {
    GreedyGroupsUnique(Flatten(gs1), size, gs1);
    GreedyGroupsUnique(Flatten(gs1), size, gs2);
  }
}
